/**
 The part of the regular expressions of ECMA-262 (section 22.2.1, no flags) that
 glob compilation needs: a parser from text to syntax trees and the matching
 relation on trees. Text outside the fragment does not parse.
 */
module Regex {
  import opened Option

  datatype Re =
    | Empty
    | Literal(c: char)
    | Dot
    | Class(negated: bool, members: set<char>)
    | Cat(first: Re, rest: Re)
    | Alt(left: Re, right: Re)
    | Star(body: Re)
    | Plus(body: Re)
    | Opt(body: Re)
    | Begin
    | End

  /** SyntaxCharacter. */
  predicate IsSyntax(c: char) {
    c in "^$\\.*+?()[]{}|"
  }

  predicate IsLineTerminator(c: char) {
    c == '\n' || c == '\r' || c == '\U{2028}' || c == '\U{2029}'
  }

  // ---------- syntax ----------

  /** A parsed tree and the text that follows it. */
  type Parsed = Option<(Re, string)>

  /** Disjunction :: Alternative | Alternative "|" Disjunction. */
  function ParseDisjunction(s: string): (r: Parsed)
    ensures r.Some? ==> |r.value.1| <= |s|
    decreases |s|, 3
  {
    match ParseAlternative(s)
    case None => None
    case Some((left, t)) =>
      if t != [] && t[0] == '|' then
        match ParseDisjunction(t[1..])
        case None => None
        case Some((right, u)) => Some((Alt(left, right), u))
      else Some((left, t))
  }

  /** Alternative: terms up to the end of the text, a "|" or a ")". */
  function ParseAlternative(s: string): (r: Parsed)
    ensures r.Some? ==> |r.value.1| <= |s|
    decreases |s|, 2
  {
    if s == [] || s[0] == '|' || s[0] == ')' then Some((Empty, s))
    else
      match ParseTerm(s)
      case None => None
      case Some((first, t)) =>
        match ParseAlternative(t)
        case None => None
        case Some((rest, u)) => Some((Cat(first, rest), u))
  }

  /** Term :: Assertion | Atom | Atom Quantifier. */
  function ParseTerm(s: string): (r: Parsed)
    requires s != []
    ensures r.Some? ==> |r.value.1| < |s|
    decreases |s|, 1
  {
    if s[0] == '^' then Some((Begin, s[1..]))
    else if s[0] == '$' then Some((End, s[1..]))
    else
      match ParseAtom(s)
      case None => None
      case Some((atom, t)) => Some(Quantify(atom, t))
  }

  /** Atom :: PatternCharacter | "." | "\" SyntaxCharacter | class | "(?:" Disjunction ")". */
  function ParseAtom(s: string): (r: Parsed)
    requires s != []
    ensures r.Some? ==> |r.value.1| < |s|
    decreases |s|, 0
  {
    if s[0] == '.' then Some((Dot, s[1..]))
    else if s[0] == '\\' then
      if |s| > 1 && IsSyntax(s[1]) then Some((Literal(s[1]), s[2..])) else None
    else if s[0] == '[' then ParseClass(s[1..])
    else if s[0] == '(' then
      if |s| > 2 && s[1] == '?' && s[2] == ':' then
        match ParseDisjunction(s[3..])
        case None => None
        case Some((body, t)) => if t != [] && t[0] == ')' then Some((body, t[1..])) else None
      else None
    else if IsSyntax(s[0]) then None
    else Some((Literal(s[0]), s[1..]))
  }

  /** The text after "[": an optional "^", plain members, "]". */
  function ParseClass(s: string): (r: Parsed)
    ensures r.Some? ==> |r.value.1| <= |s|
  {
    if s != [] && s[0] == '^' then ParseMembers(s[1..], true, {}) else ParseMembers(s, false, {})
  }

  function ParseMembers(s: string, negated: bool, members: set<char>): (r: Parsed)
    ensures r.Some? ==> |r.value.1| <= |s|
  {
    if s == [] || s[0] == '\\' || s[0] == '-' then None
    else if s[0] == ']' then Some((Class(negated, members), s[1..]))
    else ParseMembers(s[1..], negated, members + {s[0]})
  }

  /** An optional quantifier; a trailing "?" only makes it lazy. */
  function Quantify(atom: Re, s: string): (r: (Re, string))
    ensures |r.1| <= |s|
  {
    if s != [] && s[0] == '*' then (Star(atom), DropLazy(s[1..]))
    else if s != [] && s[0] == '+' then (Plus(atom), DropLazy(s[1..]))
    else if s != [] && s[0] == '?' then (Opt(atom), DropLazy(s[1..]))
    else (atom, s)
  }

  function DropLazy(s: string): (r: string)
    ensures |r| <= |s|
  {
    if s != [] && s[0] == '?' then s[1..] else s
  }

  /** The whole text as one pattern. */
  function Parse(s: string): Option<Re> {
    match ParseDisjunction(s)
    case None => None
    case Some((re, rest)) => if rest == [] then Some(re) else None
  }

  // ---------- matching ----------

  /** `re` matches the part of `s` from `i` up to `j`. */
  ghost predicate Match(re: Re, s: string, i: nat, j: nat)
    decreases re, 0, 0
  {
    i <= j <= |s| &&
    match re
    case Empty => i == j
    case Literal(c) => j == i + 1 && s[i] == c
    case Dot => j == i + 1 && !IsLineTerminator(s[i])
    case Class(negated, members) => j == i + 1 && (s[i] in members) != negated
    case Cat(first, rest) => exists k: nat :: i <= k <= j && Match(first, s, i, k) && Match(rest, s, k, j)
    case Alt(left, right) => Match(left, s, i, j) || Match(right, s, i, j)
    case Star(body) => Many(body, s, i, j)
    case Plus(body) => exists k: nat :: i <= k <= j && Match(body, s, i, k) && Many(body, s, k, j)
    case Opt(body) => i == j || Match(body, s, i, j)
    case Begin => i == j == 0
    case End => i == j == |s|
  }

  /** Zero or more non-empty matches of `body` in a row. */
  ghost predicate Many(body: Re, s: string, i: nat, j: nat)
    decreases body, 1, j - i
  {
    i <= j <= |s| &&
    (i == j || exists k: nat :: i < k <= j && Match(body, s, i, k) && Many(body, s, k, j))
  }

  /** RegExp.prototype.test: a match anywhere in the text. */
  ghost predicate Test(re: Re, s: string) {
    exists i: nat, j: nat :: Match(re, s, i, j)
  }
}
