/** String operations the source takes from JavaScript: trim, split on newlines, join. */
module Text {
  /** WhiteSpace and LineTerminator of ECMA-262, which `trim` removes. */
  predicate IsSpace(c: char) {
    || c == '\t' || c == '\n' || c == '\U{000B}' || c == '\U{000C}' || c == '\r' || c == ' '
    || c == '\U{00A0}' || c == '\U{1680}' || '\U{2000}' <= c <= '\U{200A}'
    || c == '\U{2028}' || c == '\U{2029}' || c == '\U{202F}' || c == '\U{205F}' || c == '\U{3000}' || c == '\U{FEFF}'
  }

  function TrimStart(s: string): string {
    if s != [] && IsSpace(s[0]) then TrimStart(s[1..]) else s
  }

  function TrimEnd(s: string): string {
    if s != [] && IsSpace(s[|s| - 1]) then TrimEnd(s[..|s| - 1]) else s
  }

  function Trim(s: string): string {
    TrimEnd(TrimStart(s))
  }

  /** Only spaces: what trimming to the empty text means. */
  predicate Blank(line: string) {
    forall k :: 0 <= k < |line| ==> IsSpace(line[k])
  }

  lemma {:induction false} TrimStartKeeps(s: string, k: nat) returns (j: nat)
    requires k < |s| && !IsSpace(s[k])
    ensures j < |TrimStart(s)| && !IsSpace(TrimStart(s)[j])
    decreases s
  {
    j := k;
    if IsSpace(s[0]) {
      j := TrimStartKeeps(s[1..], k - 1);
    }
  }

  lemma {:induction false} TrimEndKeeps(s: string, k: nat)
    requires k < |s| && !IsSpace(s[k])
    ensures TrimEnd(s) != []
    decreases s
  {
    if IsSpace(s[|s| - 1]) {
      TrimEndKeeps(s[..|s| - 1], k);
    }
  }

  lemma {:induction false} AllSpaceTrims(s: string)
    requires Blank(s)
    ensures TrimStart(s) == []
    decreases s
  {
    if s != [] {
      AllSpaceTrims(s[1..]);
    }
  }

  /** A text trims to nothing exactly when it consists of spaces. */
  lemma {:induction false} BlankIff(s: string)
    ensures Trim(s) == "" <==> Blank(s)
  {
    if Blank(s) {
      AllSpaceTrims(s);
    } else {
      var k :| 0 <= k < |s| && !IsSpace(s[k]);
      var j := TrimStartKeeps(s, k);
      TrimEndKeeps(TrimStart(s), j);
    }
  }

  lemma {:induction false} TrimStartMiddle(s: string) returns (u: string)
    ensures s == u + TrimStart(s) && Blank(u)
    ensures TrimStart(s) == "" || !IsSpace(TrimStart(s)[0])
    decreases s
  {
    u := "";
    if s != [] && IsSpace(s[0]) {
      var v := TrimStartMiddle(s[1..]);
      u := [s[0]] + v;
      assert s == [s[0]] + s[1..];
    }
  }

  lemma {:induction false} TrimEndMiddle(s: string) returns (v: string)
    ensures s == TrimEnd(s) + v && Blank(v)
    ensures TrimEnd(s) == "" || !IsSpace(TrimEnd(s)[|TrimEnd(s)| - 1])
    decreases s
  {
    v := "";
    if s != [] && IsSpace(s[|s| - 1]) {
      var t := TrimEndMiddle(s[..|s| - 1]);
      v := t + [s[|s| - 1]];
      assert s == s[..|s| - 1] + [s[|s| - 1]];
    }
  }

  /** Neither the first nor the last character is a space. */
  predicate NoEdgeSpace(s: string) {
    s == "" || (!IsSpace(s[0]) && !IsSpace(s[|s| - 1]))
  }

  /** Trimming takes spaces off both ends, all of them, and nothing else. */
  lemma {:induction false} TrimExact(s: string) returns (u: string, v: string)
    ensures s == u + Trim(s) + v && Blank(u) && Blank(v) && NoEdgeSpace(Trim(s))
  {
    u := TrimStartMiddle(s);
    v := TrimEndMiddle(TrimStart(s));
    assert s == u + (Trim(s) + v);
    assert Trim(s) != "" ==> TrimStart(s)[0] == Trim(s)[0];
  }

  /** `s.split(sep)` for a separator of one character. */
  function Split(s: string, sep: char): (r: seq<string>)
    ensures |r| >= 1
    ensures forall k :: 0 <= k < |r| ==> sep !in r[k]
  {
    if s == [] then [""]
    else
      var rest := Split(s[1..], sep);
      if s[0] == sep then [""] + rest else [[s[0]] + rest[0]] + rest[1..]
  }

  function SplitLines(s: string): (r: seq<string>)
    ensures |r| >= 1
    ensures forall k :: 0 <= k < |r| ==> '\n' !in r[k]
  {
    Split(s, '\n')
  }

  /** `parts.join(sep)`. */
  function Join(parts: seq<string>, sep: string): string {
    if parts == [] then ""
    else if |parts| == 1 then parts[0]
    else parts[0] + sep + Join(parts[1..], sep)
  }

  lemma {:induction false} JoinConcat(a: seq<string>, b: seq<string>, sep: string)
    requires a != [] && b != []
    ensures Join(a + b, sep) == Join(a, sep) + sep + Join(b, sep)
    decreases a
  {
    assert (a + b)[1..] == a[1..] + b;
    if |a| == 1 {
      assert a[1..] + b == b;
    } else {
      JoinConcat(a[1..], b, sep);
    }
  }

  lemma {:induction false} SplitNoNewline(s: string, t: string)
    requires '\n' !in s
    ensures SplitLines(s) == [s]
    ensures SplitLines(s + "\n" + t) == [s] + SplitLines(t)
    decreases s
  {
    var u := s + "\n" + t;
    if s == [] {
      assert u[0] == '\n' && u[1..] == t;
    } else {
      assert u[0] == s[0] && u[1..] == s[1..] + "\n" + t;
      SplitNoNewline(s[1..], t);
      assert [s[0]] + s[1..] == s;
    }
  }

  /** Splitting undoes joining. */
  lemma {:induction false} SplitJoin(lines: seq<string>)
    requires lines != [] && forall k :: 0 <= k < |lines| ==> '\n' !in lines[k]
    ensures SplitLines(Join(lines, "\n")) == lines
    decreases lines
  {
    SplitNoNewline(lines[0], Join(lines[1..], "\n"));
    if |lines| > 1 {
      SplitJoin(lines[1..]);
      assert Join(lines, "\n") == lines[0] + "\n" + Join(lines[1..], "\n");
      assert [lines[0]] + lines[1..] == lines;
    } else {
      assert lines == [lines[0]];
    }
  }

  /** Joining undoes splitting. */
  lemma {:induction false} JoinSplit(s: string)
    ensures Join(SplitLines(s), "\n") == s
    decreases s
  {
    if s != [] {
      var rest := SplitLines(s[1..]);
      JoinSplit(s[1..]);
      assert s == [s[0]] + s[1..];
      if s[0] == '\n' {
        assert ([""] + rest)[1..] == rest;
      } else {
        var all := [[s[0]] + rest[0]] + rest[1..];
        assert all[1..] == rest[1..];
      }
    }
  }

  /** A proper part of the lines joins to a shorter text. */
  lemma {:induction false} JoinPart(lines: seq<string>, i: nat, j: nat)
    requires i < j <= |lines| && j - i < |lines|
    ensures |Join(lines[i..j], "\n")| < |Join(lines, "\n")|
  {
    if i > 0 {
      JoinConcat(lines[..i], lines[i..], "\n");
      assert lines[..i] + lines[i..] == lines;
    } else {
      assert lines[0..] == lines;
    }
    if j < |lines| {
      JoinConcat(lines[i..j], lines[j..], "\n");
      assert lines[i..j] + lines[j..] == lines[i..];
    } else {
      assert lines[i..j] == lines[i..];
    }
  }

  lemma {:induction false} JoinEmptyIff(lines: seq<string>)
    ensures Join(lines, "\n") == "" <==> lines == [] || lines == [""]
  {}

  /** The lines that are not blank, in order. */
  function NonBlank(lines: seq<string>): seq<string> {
    if lines == [] then []
    else (if Blank(lines[0]) then [] else [lines[0]]) + NonBlank(lines[1..])
  }

  lemma {:induction false} NonBlankConcat(a: seq<string>, b: seq<string>)
    ensures NonBlank(a + b) == NonBlank(a) + NonBlank(b)
    decreases a
  {
    if a == [] {
      assert a + b == b;
    } else {
      assert (a + b)[1..] == a[1..] + b;
      NonBlankConcat(a[1..], b);
    }
  }

  lemma {:induction false} NonBlankAll(lines: seq<string>)
    requires forall k :: 0 <= k < |lines| ==> !Blank(lines[k])
    ensures NonBlank(lines) == lines
    decreases lines
  {
    if lines != [] {
      NonBlankAll(lines[1..]);
    }
  }

  lemma {:induction false} NonBlankNone(lines: seq<string>)
    requires forall k :: 0 <= k < |lines| ==> Blank(lines[k])
    ensures NonBlank(lines) == []
    decreases lines
  {
    if lines != [] {
      NonBlankNone(lines[1..]);
    }
  }
}
