/** Validation and normalisation of user-supplied paths. */
module StoragePaths {
  import opened Text
  import opened Utf8

  const MAX_PATH_BYTES := 512

  datatype PathError = NullByte | DotDotSegment | EmptyPath | TooLong

  datatype Validation = Valid(normalizedPath: string) | Invalid(error: PathError)

  function ForwardSlashes(s: string): (r: string)
    ensures |r| == |s| && forall k :: 0 <= k < |r| ==> r[k] == if s[k] == '\\' then '/' else s[k]
  {
    seq(|s|, k requires 0 <= k < |s| => if s[k] == '\\' then '/' else s[k])
  }

  function Segments(s: string): seq<string> {
    Split(s, '/')
  }

  /** Removes leading "/" and "./" for as long as there are any. */
  function StripLeading(s: string): (r: string)
    ensures |r| <= |s|
  {
    if "./" <= s then StripLeading(s[2..])
    else if "/" <= s then StripLeading(s[1..])
    else s
  }

  function ValidatePath(path: string): Validation {
    if '\0' in path then Invalid(NullByte)
    else if ".." in Segments(ForwardSlashes(path)) then Invalid(DotDotSegment)
    else
      var stripped := StripLeading(ForwardSlashes(path));
      var clean := if stripped == "." then "" else stripped;
      if |clean| == 0 then Invalid(EmptyPath)
      else if Utf8Length(clean) > MAX_PATH_BYTES then Invalid(TooLong)
      else Valid(clean)
  }

  /** The source's loops over the segments and over the leading characters. */
  method CheckPath(path: string) returns (r: Validation)
    ensures r == ValidatePath(path) && PathSpec(path, r)
  {
    PathExact(path);
    if '\0' in path {
      return Invalid(NullByte);
    }
    var normalized := ForwardSlashes(path);
    var segments := Segments(normalized);
    for i := 0 to |segments|
      invariant ".." !in segments[..i]
    {
      if segments[i] == ".." {
        return Invalid(DotDotSegment);
      }
      assert segments[..i + 1] == segments[..i] + [segments[i]];
    }
    assert segments[..|segments|] == segments;
    var clean := normalized;
    while "/" <= clean || "./" <= clean
      invariant StripLeading(clean) == StripLeading(normalized)
      decreases |clean|
    {
      if "./" <= clean {
        clean := clean[2..];
      } else {
        clean := clean[1..];
      }
    }
    if clean == "." {
      clean := "";
    }
    if |clean| == 0 {
      return Invalid(EmptyPath);
    }
    if Utf8Length(clean) > MAX_PATH_BYTES {
      return Invalid(TooLong);
    }
    return Valid(clean);
  }

  lemma {:induction false} StripLeadingKeeps(s: string)
    ensures var r := StripLeading(s);
      && !("./" <= r) && !("/" <= r)
      && (forall c :: c in r ==> c in s)
      && (forall x :: x in Segments(r) ==> x in Segments(s))
    decreases s
  {
    if "./" <= s {
      StripLeadingKeeps(s[2..]);
      assert s[1..][1..] == s[2..];
      assert Segments(s[1..]) == [""] + Segments(s[2..]);
      assert Segments(s)[1..] == Segments(s[2..]);
    } else if "/" <= s {
      StripLeadingKeeps(s[1..]);
      assert Segments(s) == [""] + Segments(s[1..]);
    }
  }

  /** Normalised paths are fixed points: validating one again gives it back. */
  lemma {:induction false} NormalizedIsFixed(path: string)
    requires ValidatePath(path).Valid?
    ensures ValidatePath(ValidatePath(path).normalizedPath) == ValidatePath(path)
  {
    var normalized := ForwardSlashes(path);
    var clean := ValidatePath(path).normalizedPath;
    StripLeadingKeeps(normalized);
    forall k | 0 <= k < |clean| ensures clean[k] != '\\' && clean[k] != '\0' {
      assert clean[k] in normalized;
      var j :| 0 <= j < |normalized| && normalized[j] == clean[k];
      assert path[j] in path;
    }
    assert ForwardSlashes(clean) == clean;
  }

  // ---------- what is accepted ----------

  /** A ".." between separators or the ends of the text. */
  ghost predicate HasDotDot(t: string) {
    exists i :: DotDotAt(t, i)
  }

  ghost predicate DotDotAt(t: string, i: int) {
    SegmentAt(t, i, i + 2) && t[i..i + 2] == ".."
  }

  ghost predicate SegmentAt(t: string, i: int, j: int) {
    && 0 <= i <= j <= |t| && (forall k :: i <= k < j ==> t[k] != '/')
    && (i == 0 || t[i - 1] == '/') && (j == |t| || t[j] == '/')
  }

  lemma {:induction false} SegmentShift(c: char, t: string, i: int, j: int)
    requires 0 < i
    ensures SegmentAt([c] + t, i + 1, j + 1) <==> SegmentAt(t, i, j)
  {
    var u := [c] + t;
    assert forall k :: 0 <= k < |t| ==> u[k + 1] == t[k];
    if SegmentAt(u, i + 1, j + 1) {
      forall k | i <= k < j ensures t[k] != '/' {
        assert u[k + 1] != '/';
      }
    }
  }

  /** The first segment. */
  lemma {:induction false} FirstSegment(t: string, j: int)
    ensures SegmentAt(t, 0, j) <==> 0 <= j <= |t| && Segments(t)[0] == t[..j] && (j == |t| || t[j] == '/')
    decreases t
  {
    if t != [] && t[0] != '/' {
      FirstSegment(t[1..], j - 1);
      var u := t[1..];
      assert forall k :: 0 <= k < |u| ==> u[k] == t[k + 1];
      if 0 < j <= |t| {
        assert t[..j] == [t[0]] + u[..j - 1];
        assert SegmentAt(t, 0, j) <==> SegmentAt(u, 0, j - 1);
      }
    }
  }

  /** `split` gives the segments, first one apart. */
  lemma {:induction false} LaterSegments(t: string, x: string)
    ensures x in Segments(t)[1..] <==> exists i, j :: 0 < i && SegmentAt(t, i, j) && t[i..j] == x
    decreases t
  {
    if t != [] {
      var c, u := t[0], t[1..];
      assert t == [c] + u;
      LaterSegments(u, x);
      ShiftSegments(c, u, x);
      if c == '/' {
        assert Segments(t)[1..] == Segments(u);
        assert forall y :: y in Segments(u) <==> y == Segments(u)[0] || y in Segments(u)[1..];
        HeadSegment(u, x);
      } else {
        assert Segments(t)[1..] == Segments(u)[1..];
      }
    }
  }

  lemma {:induction false} HeadSegment(u: string, x: string)
    ensures x == Segments(u)[0] <==> exists j :: SegmentAt(u, 0, j) && u[0..j] == x
  {
    var j := FirstEnd(u);
    FirstSegment(u, j);
    if x == Segments(u)[0] {
      assert SegmentAt(u, 0, j) && u[0..j] == x;
    }
    forall j | SegmentAt(u, 0, j) ensures u[0..j] == Segments(u)[0] {
      FirstSegment(u, j);
    }
  }

  /** Where the first segment ends. */
  function FirstEnd(t: string): (j: nat)
    ensures j <= |t| && Segments(t)[0] == t[..j] && (j == |t| || t[j] == '/')
  {
    if t == [] || t[0] == '/' then 0
    else
      assert t[..FirstEnd(t[1..]) + 1] == [t[0]] + t[1..][..FirstEnd(t[1..])];
      FirstEnd(t[1..]) + 1
  }

  lemma {:induction false} LaterSegment(c: char, u: string, i: int, j: int)
    requires 0 < i && SegmentAt([c] + u, i, j)
    ensures SegmentAt(u, i - 1, j - 1) && ([c] + u)[i..j] == u[i - 1..j - 1] && (i == 1 ==> c == '/')
  {
    SliceUnder([c], u, i - 1, j - 1);
    if i > 1 {
      SegmentShift(c, u, i - 1, j - 1);
    } else {
      SegmentShiftFirst(c, u, j - 1);
    }
  }

  lemma {:induction false} SegmentLater(c: char, u: string, i: int, j: int)
    requires SegmentAt(u, i, j) && (i == 0 ==> c == '/')
    ensures SegmentAt([c] + u, i + 1, j + 1) && ([c] + u)[i + 1..j + 1] == u[i..j]
  {
    SliceUnder([c], u, i, j);
    if i > 0 {
      SegmentShift(c, u, i, j);
    } else {
      SegmentShiftFirst(c, u, j);
    }
  }

  /** The later segments of `c` and `u` are those of `u`, where the first one counts if `c` is a separator. */
  lemma {:induction false} ShiftSegments(c: char, u: string, x: string)
    ensures (exists i, j :: 0 < i && SegmentAt([c] + u, i, j) && ([c] + u)[i..j] == x) <==>
      (exists i, j :: 0 < i && SegmentAt(u, i, j) && u[i..j] == x) ||
      (c == '/' && exists j :: SegmentAt(u, 0, j) && u[0..j] == x)
  {
    var t := [c] + u;
    if i, j :| 0 < i && SegmentAt(t, i, j) && t[i..j] == x {
      LaterSegment(c, u, i, j);
      assert SegmentAt(u, i - 1, j - 1) && u[i - 1..j - 1] == x;
    }
    if i, j :| 0 < i && SegmentAt(u, i, j) && u[i..j] == x {
      SegmentLater(c, u, i, j);
    }
    if c == '/' {
      if j :| SegmentAt(u, 0, j) && u[0..j] == x {
        SegmentLater(c, u, 0, j);
      }
    }
  }

  lemma {:induction false} SegmentShiftFirst(c: char, t: string, j: int)
    ensures SegmentAt([c] + t, 1, j + 1) <==> c == '/' && SegmentAt(t, 0, j)
  {
    var u := [c] + t;
    assert forall k :: 0 <= k < |t| ==> u[k + 1] == t[k];
    if SegmentAt(u, 1, j + 1) {
      forall k | 0 <= k < j ensures t[k] != '/' {
        assert u[k + 1] != '/';
      }
    }
  }

  lemma {:induction false} DotDotIff(t: string)
    ensures ".." in Segments(t) <==> HasDotDot(t)
  {
    LaterSegments(t, "..");
    HeadSegment(t, "..");
    assert forall y :: y in Segments(t) <==> y == Segments(t)[0] || y in Segments(t)[1..];
    forall i, j | SegmentAt(t, i, j) && t[i..j] == ".." ensures HasDotDot(t) {
      assert DotDotAt(t, i);
    }
    if i :| DotDotAt(t, i) {
      assert SegmentAt(t, i, i + 2) && t[i..i + 2] == "..";
      assert i == 0 ==> SegmentAt(t, 0, 2) && t[0..2] == "..";
    }
  }

  /** A run of "/" and "./". */
  ghost predicate Skippable(u: string)
    decreases u
  {
    u == "" || ("/" <= u && Skippable(u[1..])) || ("./" <= u && Skippable(u[2..]))
  }

  /** `clean` is the text without the "/" and "./" that it starts with. */
  ghost predicate Relative(t: string, clean: string) {
    && !("/" <= clean) && !("./" <= clean)
    && exists u :: Skippable(u) && t == u + clean
  }

  lemma {:induction false} StripRelative(t: string)
    ensures Relative(t, StripLeading(t))
    decreases t
  {
    if "./" <= t {
      StripRelative(t[2..]);
      SkipMore("./", t[2..], StripLeading(t));
      assert t == "./" + t[2..];
    } else if "/" <= t {
      StripRelative(t[1..]);
      SkipMore("/", t[1..], StripLeading(t));
      assert t == "/" + t[1..];
    } else {
      assert Skippable("") && t == "" + t;
    }
  }

  lemma {:induction false} SkipMore(piece: string, t: string, clean: string)
    requires (piece == "/" || piece == "./") && Relative(t, clean)
    ensures Relative(piece + t, clean)
  {
    var u :| Skippable(u) && t == u + clean;
    assert (piece + u)[|piece|..] == u;
    assert Skippable(piece + u) && piece + t == (piece + u) + clean;
  }

  /** What a path is normalised to, or why it is refused; the first reason that applies wins. */
  ghost predicate PathSpec(path: string, r: Validation) {
    var t := ForwardSlashes(path);
    if '\0' in path then r == Invalid(NullByte)
    else if HasDotDot(t) then r == Invalid(DotDotSegment)
    else exists clean :: Relative(t, clean) && Judged(clean, r)
  }

  /** What becomes of a relative path. */
  ghost predicate Judged(clean: string, r: Validation) {
    if clean == "" || clean == "." then r == Invalid(EmptyPath)
    else if Utf8Length(clean) > 512 then r == Invalid(TooLong)
    else r == Valid(clean)
  }

  lemma {:induction false} PathExact(path: string)
    ensures PathSpec(path, ValidatePath(path))
  {
    var t := ForwardSlashes(path);
    DotDotIff(t);
    StripRelative(t);
    assert Relative(t, StripLeading(t));
    assert '\0' !in path && !HasDotDot(t) ==> Judged(StripLeading(t), ValidatePath(path));
  }

  lemma {:induction false} SkippableEnd(u: string)
    requires Skippable(u) && u != ""
    ensures u[|u| - 1] == '/'
    decreases u
  {
    if "/" <= u && Skippable(u[1..]) {
      if u[1..] != "" {
        SkippableEnd(u[1..]);
      }
    } else if u[2..] != "" {
      SkippableEnd(u[2..]);
    }
  }

  /**
   An accepted path is the end of the given one with forward slashes: not empty, without
   null characters, backslashes, ".." segments and leading "/" or "./", and of at most
   512 bytes.
   */
  lemma {:induction false} AcceptedPath(path: string, r: Validation)
    requires PathSpec(path, r) && r.Valid?
    ensures var p, t := r.normalizedPath, ForwardSlashes(path);
      && p != "" && p != "." && '\0' !in p && '\\' !in p && !HasDotDot(p) && !("/" <= p) && !("./" <= p)
      && Utf8Length(p) <= 512 && |p| <= |t| && p == t[|t| - |p|..]
  {
    var p, t := r.normalizedPath, ForwardSlashes(path);
    var u :| Skippable(u) && t == u + p;
    assert p == t[|u|..];
    forall k | 0 <= k < |p| ensures p[k] != '\0' && p[k] != '\\' {
      assert p[k] == t[|u| + k] && path[|u| + k] in path;
    }
    if HasDotDot(p) {
      NoNewDotDot(u, p);
    }
  }

  lemma {:induction false} SegmentUnder(u: string, p: string, i: int, j: int)
    requires SegmentAt(p, i, j) && (u == "" || u[|u| - 1] == '/')
    ensures SegmentAt(u + p, |u| + i, |u| + j)
  {
    var t := u + p;
    assert forall k :: |u| <= k < |t| ==> t[k] == p[k - |u|];
    if i == 0 && u != "" {
      assert t[|u| - 1] == u[|u| - 1];
    }
  }

  lemma {:induction false} SliceUnder(u: string, p: string, i: nat, j: nat)
    requires i <= j <= |p|
    ensures (u + p)[|u| + i..|u| + j] == p[i..j]
  {}

  lemma {:induction false} NoNewDotDot(u: string, p: string)
    requires Skippable(u) && HasDotDot(p)
    ensures HasDotDot(u + p)
  {
    var i :| DotDotAt(p, i);
    if u != "" {
      SkippableEnd(u);
    }
    SegmentUnder(u, p, i, i + 2);
    SliceUnder(u, p, i, i + 2);
    assert DotDotAt(u + p, |u| + i);
  }
}
