/**
 Renaming a directory in a flat key-value bucket: every key under the source prefix
 is copied to the destination prefix and then deleted.
 */
module DirectoryRename {
  import opened StoragePaths

  type Objects = map<string, string>

  datatype Failure = SourceInvalid(error: PathError) | DestinationInvalid(error: PathError)
                   | IntoItself | DestinationExists | SourceNotFound

  datatype Outcome = Renamed(oldPath: string, newPath: string) | Failed(why: Failure)

  /** The key prefix of a directory: storage prefix, path, and slashes around. */
  function DirPrefix(storagePrefix: string, normalizedPath: string): string {
    storagePrefix + "/" + normalizedPath + "/"
  }

  function KeysUnder(objects: Objects, prefix: string): set<string> {
    set k | k in objects && prefix <= k
  }

  function KeySet(keys: seq<string>): set<string> {
    set k | k in keys
  }

  function NewKey(key: string, src: string, dst: string): string
    requires src <= key
  {
    dst + key[|src|..]
  }

  /** What a copied key holds: the marker of the directory itself is written empty. */
  function CopiedContent(objects: Objects, key: string, src: string): string
    requires key in objects
  {
    if key == src then "" else objects[key]
  }

  lemma {:induction false} NewKeyInjective(src: string, dst: string, k: string, m: string)
    requires src <= k && src <= m && NewKey(k, src, dst) == NewKey(m, src, dst)
    ensures k == m
  {
    assert NewKey(k, src, dst)[|dst|..] == k[|src|..] && NewKey(m, src, dst)[|dst|..] == m[|src|..];
    assert k == src + k[|src|..] && m == src + m[|src|..];
  }

  /** The copies of the given keys. */
  function Copies(objects: Objects, keys: set<string>, src: string, dst: string): (r: Objects)
    requires forall k :: k in keys ==> k in objects && src <= k
    ensures forall k :: k in keys ==>
      NewKey(k, src, dst) in r && r[NewKey(k, src, dst)] == CopiedContent(objects, k, src)
    ensures forall n :: n in r ==> exists k :: k in keys && n == NewKey(k, src, dst)
  {
    forall k, m | k in keys && m in keys && NewKey(k, src, dst) == NewKey(m, src, dst) ensures k == m {
      NewKeyInjective(src, dst, k, m);
    }
    map k | k in keys :: NewKey(k, src, dst) := CopiedContent(objects, k, src)
  }

  /** The bucket after a successful rename. */
  function Moved(objects: Objects, src: string, dst: string): Objects {
    var keys := KeysUnder(objects, src);
    (objects + Copies(objects, keys, src, dst)) - keys
  }

  function Rename(objects: Objects, storagePrefix: string, oldPath: string, newPath: string): (Objects, Outcome) {
    var src, dst := ValidatePath(oldPath), ValidatePath(newPath);
    if src.Invalid? then (objects, Failed(SourceInvalid(src.error)))
    else if dst.Invalid? then (objects, Failed(DestinationInvalid(dst.error)))
    else
      var a, b := src.normalizedPath, dst.normalizedPath;
      var srcPrefix, dstPrefix := DirPrefix(storagePrefix, a), DirPrefix(storagePrefix, b);
      if a == b then (objects, Renamed(a, b))
      else if a + "/" <= b then (objects, Failed(IntoItself))
      else if KeysUnder(objects, dstPrefix) != {} then (objects, Failed(DestinationExists))
      else if KeysUnder(objects, srcPrefix) == {} then (objects, Failed(SourceNotFound))
      else (Moved(objects, srcPrefix, dstPrefix), Renamed(a, b))
  }

  class Bucket {
    var objects: Objects

    constructor (objects: Objects)
      ensures this.objects == objects
    {
      this.objects := objects;
    }

    /** `listAllKeys`: all keys under a prefix, each once, in some order. */
    method ListAllKeys(prefix: string) returns (keys: seq<string>)
      ensures forall k :: k in keys <==> k in KeysUnder(objects, prefix)
    {
      keys := [];
      var remaining := KeysUnder(objects, prefix);
      while remaining != {}
        invariant remaining <= KeysUnder(objects, prefix)
        invariant forall k :: k in KeysUnder(objects, prefix) <==> k in keys || k in remaining
        decreases remaining
      {
        var k :| k in remaining;
        keys := keys + [k];
        remaining := remaining - {k};
      }
    }

    /** The copy loop. */
    method CopyAll(keys: seq<string>, src: string, dst: string)
      requires forall j :: 0 <= j < |keys| ==> keys[j] in objects && src <= keys[j]
      requires !(src <= dst) && !(dst <= src)
      modifies this
      ensures objects == old(objects) + Copies(old(objects), KeySet(keys), src, dst)
    {
      ghost var before := objects;
      for i := 0 to |keys|
        invariant objects == before + Copies(before, KeySet(keys[..i]), src, dst)
      {
        var key := keys[i];
        var newKey := NewKey(key, src, dst);
        CopyStep(before, keys, i, src, dst);
        if key == src {
          objects := objects[newKey := ""];
        } else if key in objects {
          objects := objects[newKey := objects[key]];
        }
      }
      assert keys[..|keys|] == keys;
    }

    /** The delete loop, at most 1000 keys at a time. */
    method DeleteAll(keys: seq<string>)
      modifies this
      ensures objects == old(objects) - KeySet(keys)
    {
      ghost var before := objects;
      var i := 0;
      while i < |keys|
        invariant i >= 0
        invariant objects == before - KeySet(keys[..if i < |keys| then i else |keys|])
      {
        var end := if i + 1000 < |keys| then i + 1000 else |keys|;
        assert keys[..end] == keys[..i] + keys[i..end];
        objects := objects - KeySet(keys[i..end]);
        i := i + 1000;
      }
      assert keys[..|keys|] == keys;
    }

    method RenameDirectory(storagePrefix: string, oldPath: string, newPath: string) returns (outcome: Outcome)
      modifies this
      ensures (objects, outcome) == Rename(old(objects), storagePrefix, oldPath, newPath)
    {
      var srcValidation := CheckPath(oldPath);
      if srcValidation.Invalid? {
        return Failed(SourceInvalid(srcValidation.error));
      }
      var dstValidation := CheckPath(newPath);
      if dstValidation.Invalid? {
        return Failed(DestinationInvalid(dstValidation.error));
      }
      var a, b := srcValidation.normalizedPath, dstValidation.normalizedPath;
      if a == b {
        return Renamed(a, b);
      }
      if a + "/" <= b {
        return Failed(IntoItself);
      }
      var srcPrefix, dstPrefix := DirPrefix(storagePrefix, a), DirPrefix(storagePrefix, b);
      if dstPrefix in objects {
        assert dstPrefix in KeysUnder(objects, dstPrefix);
        return Failed(DestinationExists);
      }
      if KeysUnder(objects, dstPrefix) != {} {
        return Failed(DestinationExists);
      }
      var keys := ListAllKeys(srcPrefix);
      if srcPrefix in objects && srcPrefix !in keys {
        keys := keys + [srcPrefix];
      }
      assert KeySet(keys) == KeysUnder(objects, srcPrefix);
      if |keys| == 0 {
        return Failed(SourceNotFound);
      }
      assert keys[0] in KeysUnder(objects, srcPrefix);
      PrefixesApart(objects, storagePrefix, a, b);
      forall j | 0 <= j < |keys| ensures keys[j] in objects && srcPrefix <= keys[j] {
        assert keys[j] in KeySet(keys);
      }
      CopyAll(keys, srcPrefix, dstPrefix);
      DeleteAll(keys);
      return Renamed(a, b);
    }
  }

  /** One round of the copy loop. */
  lemma {:induction false} CopyStep(before: Objects, keys: seq<string>, i: nat, src: string, dst: string)
    requires i < |keys| && forall j :: 0 <= j < |keys| ==> keys[j] in before && src <= keys[j]
    requires !(src <= dst) && !(dst <= src)
    ensures var now := before + Copies(before, KeySet(keys[..i]), src, dst);
      && keys[i] in now && now[keys[i]] == before[keys[i]]
      && now[NewKey(keys[i], src, dst) := CopiedContent(before, keys[i], src)] ==
         before + Copies(before, KeySet(keys[..i + 1]), src, dst)
  {
    var done := KeySet(keys[..i]);
    KeySetMore(keys, i);
    CopiesMore(before, done, keys[i], src, dst);
    Untouched(before, done, keys[i], src, dst);
    UpdateRight(before, Copies(before, done, src, dst), NewKey(keys[i], src, dst), CopiedContent(before, keys[i], src));
  }

  lemma {:induction false} KeySetMore(keys: seq<string>, i: nat)
    requires i < |keys|
    ensures KeySet(keys[..i + 1]) == KeySet(keys[..i]) + {keys[i]}
  {
    assert keys[..i + 1] == keys[..i] + [keys[i]];
  }

  lemma {:induction false} UpdateRight(m: Objects, n: Objects, key: string, content: string)
    ensures (m + n)[key := content] == m + n[key := content]
  {}

  lemma {:induction false} CopiesMore(objects: Objects, keys: set<string>, key: string, src: string, dst: string)
    requires forall k :: k in keys + {key} ==> k in objects && src <= k
    ensures Copies(objects, keys + {key}, src, dst) ==
      Copies(objects, keys, src, dst)[NewKey(key, src, dst) := CopiedContent(objects, key, src)]
  {
    var more, r := Copies(objects, keys + {key}, src, dst), Copies(objects, keys, src, dst);
    forall n | n in more ensures n in r || n == NewKey(key, src, dst) {
      var k :| k in keys + {key} && n == NewKey(k, src, dst);
    }
    forall n | n in r && n != NewKey(key, src, dst) ensures n in more && more[n] == r[n] {
      var k :| k in keys && n == NewKey(k, src, dst);
      assert k in keys + {key};
    }
  }

  /** A key under the source is never a copy, so copying does not change it. */
  lemma {:induction false} Untouched(objects: Objects, keys: set<string>, key: string, src: string, dst: string)
    requires forall k :: k in keys ==> k in objects && src <= k
    requires src <= key && !(src <= dst) && !(dst <= src)
    ensures key !in Copies(objects, keys, src, dst)
  {
    forall n | n in Copies(objects, keys, src, dst) ensures !(src <= n) {
      var k :| k in keys && n == NewKey(k, src, dst);
      NotUnderBoth(src, dst, n);
    }
  }

  /** Two prefixes of one string: one extends the other. */
  lemma {:induction false} Comparable(p: string, q: string, s: string)
    requires p <= s && q <= s
    ensures p <= q || q <= p
  {}

  /** At the copy loop neither prefix extends the other. */
  lemma {:induction false} PrefixesApart(objects: Objects, storagePrefix: string, a: string, b: string)
    requires a != b && !(a + "/" <= b)
    requires KeysUnder(objects, DirPrefix(storagePrefix, b)) == {}
    requires KeysUnder(objects, DirPrefix(storagePrefix, a)) != {}
    ensures !(DirPrefix(storagePrefix, a) <= DirPrefix(storagePrefix, b))
    ensures !(DirPrefix(storagePrefix, b) <= DirPrefix(storagePrefix, a))
  {
    var src, dst := DirPrefix(storagePrefix, a), DirPrefix(storagePrefix, b);
    PrefixNested(storagePrefix, a, b);
    var k :| k in KeysUnder(objects, src);
    assert dst <= src ==> k in KeysUnder(objects, dst);
  }

  /** One directory's prefix extends another's exactly when it is the same directory or inside it. */
  lemma {:induction false} PrefixNested(storagePrefix: string, a: string, b: string)
    ensures DirPrefix(storagePrefix, a) <= DirPrefix(storagePrefix, b) <==> a == b || a + "/" <= b
  {
    var src, dst := DirPrefix(storagePrefix, a), DirPrefix(storagePrefix, b);
    var n := |storagePrefix| + 1;
    assert src[n..] == a + "/" && dst[n..] == b + "/";
    if src <= dst {
      assert a + "/" <= b + "/";
      assert (b + "/")[..|b|] == b;
      if |a| == |b| {
        assert (a + "/")[..|a|] == (b + "/")[..|b|];
      } else {
        assert a + "/" <= (b + "/")[..|b|];
      }
    }
    if a + "/" <= b {
      assert b == a + "/" + b[|a| + 1..];
      assert dst == src + (b[|a| + 1..] + "/");
    }
  }

  // ---------- conservation ----------

  /** The rename reached the copy loop and finished. */
  ghost predicate Succeeded(objects: Objects, storagePrefix: string, oldPath: string, newPath: string) {
    var o := Rename(objects, storagePrefix, oldPath, newPath).1;
    o.Renamed? && o.oldPath != o.newPath
  }

  lemma {:induction false} MovedAt(objects: Objects, src: string, dst: string, key: string)
    requires !(src <= dst) && !(dst <= src) && KeysUnder(objects, dst) == {}
    ensures var r := Moved(objects, src, dst);
      if src <= key then key !in r
      else if dst <= key then
        var from := src + key[|dst|..];
        (key in r <==> from in objects) && (key in r ==> r[key] == CopiedContent(objects, from, src))
      else (key in r <==> key in objects) && (key in r ==> r[key] == objects[key])
  {
    var keys := KeysUnder(objects, src);
    var copies := Copies(objects, keys, src, dst);
    if src <= key {
      Untouched(objects, keys, key, src, dst);
    } else if dst <= key {
      var from := src + key[|dst|..];
      assert NewKey(from, src, dst) == key;
      assert key !in objects by {
        assert key in objects ==> key in KeysUnder(objects, dst);
      }
      if key in copies {
        var k :| k in keys && key == NewKey(k, src, dst);
        NewKeyInjective(src, dst, k, from);
      }
      assert from in objects ==> from in keys;
    } else {
      assert key !in copies;
    }
  }

  /**
   A successful rename conserves the bucket: nothing is left under the source, every
   other key is as it was, and what was under the source is under the destination with
   the same suffix, and with the same content for every key but the directory marker.
   */
  lemma {:induction false} RenameConserves(
      objects: Objects, storagePrefix: string, oldPath: string, newPath: string, key: string, suffix: string)
    requires Succeeded(objects, storagePrefix, oldPath, newPath)
    ensures var (after, o) := Rename(objects, storagePrefix, oldPath, newPath);
      var src, dst := DirPrefix(storagePrefix, o.oldPath), DirPrefix(storagePrefix, o.newPath);
      && src + suffix !in after
      && (!(src <= key) && !(dst <= key) ==>
            (key in after <==> key in objects) && (key in after ==> after[key] == objects[key]))
      && (dst + suffix in after <==> src + suffix in objects)
      && (src + suffix in objects ==> after[dst + suffix] == if suffix == "" then "" else objects[src + suffix])
  {
    var o := Rename(objects, storagePrefix, oldPath, newPath).1;
    var src, dst := DirPrefix(storagePrefix, o.oldPath), DirPrefix(storagePrefix, o.newPath);
    PrefixesApart(objects, storagePrefix, o.oldPath, o.newPath);
    MovedAt(objects, src, dst, src + suffix);
    MovedAt(objects, src, dst, key);
    MovedAt(objects, src, dst, dst + suffix);
    assert (dst + suffix)[|dst|..] == suffix;
    assert src <= dst + suffix ==> src <= dst || dst <= src by {
      if src <= dst + suffix {
        Comparable(src, dst, dst + suffix);
      }
    }
  }

  /** Renaming back succeeds, and restores the bucket exactly when the directory marker was absent or empty. */
  lemma {:induction false} RenameBack(objects: Objects, storagePrefix: string, oldPath: string, newPath: string)
    requires Succeeded(objects, storagePrefix, oldPath, newPath)
    ensures var (after, o) := Rename(objects, storagePrefix, oldPath, newPath);
      var (back, p) := Rename(after, storagePrefix, newPath, oldPath);
      var marker := DirPrefix(storagePrefix, o.oldPath);
      && p == Renamed(o.newPath, o.oldPath)
      && (back == objects <==> (marker in objects ==> objects[marker] == ""))
  {
    var (after, o) := Rename(objects, storagePrefix, oldPath, newPath);
    var src, dst := DirPrefix(storagePrefix, o.oldPath), DirPrefix(storagePrefix, o.newPath);
    PrefixesApart(objects, storagePrefix, o.oldPath, o.newPath);
    PrefixNested(storagePrefix, o.newPath, o.oldPath);
    SidesAfter(objects, src, dst);
    MovedBack(objects, src, dst);
  }

  /** After the move the source prefix is empty and the destination prefix is not. */
  lemma {:induction false} SidesAfter(objects: Objects, src: string, dst: string)
    requires !(src <= dst) && !(dst <= src) && KeysUnder(objects, dst) == {} && KeysUnder(objects, src) != {}
    ensures KeysUnder(Moved(objects, src, dst), src) == {} && KeysUnder(Moved(objects, src, dst), dst) != {}
  {
    var after := Moved(objects, src, dst);
    forall k ensures k !in KeysUnder(after, src) {
      MovedAt(objects, src, dst, k);
    }
    var some :| some in KeysUnder(objects, src);
    var there := NewKey(some, src, dst);
    assert src + there[|dst|..] == some;
    NotUnderBoth(src, dst, there);
    MovedAt(objects, src, dst, there);
    assert there in KeysUnder(after, dst);
  }

  lemma {:induction false} MovedBack(objects: Objects, src: string, dst: string)
    requires !(src <= dst) && !(dst <= src) && KeysUnder(objects, dst) == {} && KeysUnder(objects, src) != {}
    ensures Moved(Moved(objects, src, dst), dst, src) == objects <==> (src in objects ==> objects[src] == "")
  {
    var back := Moved(Moved(objects, src, dst), dst, src);
    SidesAfter(objects, src, dst);
    forall k
      ensures k in back <==> k in objects
      ensures k in back ==> back[k] == CopiedContent(objects, k, src)
    {
      MovedBackAt(objects, src, dst, k);
    }
    SameUnlessMarker(objects, back, src);
  }

  lemma {:induction false} SameUnlessMarker(objects: Objects, back: Objects, src: string)
    requires forall k :: k in back <==> k in objects
    requires forall k :: k in back ==> back[k] == CopiedContent(objects, k, src)
    ensures back == objects <==> (src in objects ==> objects[src] == "")
  {
    if src in objects {
      assert src in back && back[src] == "";
    }
  }

  lemma {:induction false} NotUnderBoth(p: string, q: string, k: string)
    requires !(p <= q) && !(q <= p) && q <= k
    ensures !(p <= k)
  {
    if p <= k {
      Comparable(p, q, k);
    }
  }

  lemma {:induction false} MovedBackAt(objects: Objects, src: string, dst: string, k: string)
    requires !(src <= dst) && !(dst <= src) && KeysUnder(objects, dst) == {}
    requires KeysUnder(Moved(objects, src, dst), src) == {}
    ensures var back := Moved(Moved(objects, src, dst), dst, src);
      (k in back <==> k in objects) && (k in back ==> back[k] == CopiedContent(objects, k, src))
  {
    var after := Moved(objects, src, dst);
    MovedAt(after, dst, src, k);
    MovedAt(objects, src, dst, k);
    if dst <= k {
      assert k !in objects by {
        assert k in objects ==> k in KeysUnder(objects, dst);
      }
    } else if src <= k {
      var there := dst + k[|src|..];
      assert there[|dst|..] == k[|src|..] && src + k[|src|..] == k;
      NotUnderBoth(src, dst, there);
      MovedAt(objects, src, dst, there);
    }
  }

  // ---------- in terms of files ----------

  /** The key of a file, `toR2Key`. */
  function FileKey(storagePrefix: string, path: string): string {
    storagePrefix + "/" + path
  }

  /** The directory has an object: its marker or something inside it. */
  ghost predicate Exists(objects: Objects, storagePrefix: string, dir: string) {
    exists rest :: FileKey(storagePrefix, dir + "/" + rest) in objects
  }

  lemma {:induction false} KeyInside(storagePrefix: string, dir: string, rest: string)
    ensures DirPrefix(storagePrefix, dir) + rest == FileKey(storagePrefix, dir + "/" + rest)
  {}

  lemma {:induction false} ExistsIff(objects: Objects, storagePrefix: string, dir: string)
    ensures KeysUnder(objects, DirPrefix(storagePrefix, dir)) != {} <==> Exists(objects, storagePrefix, dir)
  {
    var prefix := DirPrefix(storagePrefix, dir);
    if k :| k in KeysUnder(objects, prefix) {
      KeyInside(storagePrefix, dir, k[|prefix|..]);
      assert k == prefix + k[|prefix|..];
    }
    if rest :| FileKey(storagePrefix, dir + "/" + rest) in objects {
      KeyInside(storagePrefix, dir, rest);
      assert prefix <= prefix + rest;
      assert FileKey(storagePrefix, dir + "/" + rest) in KeysUnder(objects, prefix);
    }
  }

  /**
   When a rename is refused, and why, the first reason winning; then, and when the two
   paths are the same directory, the bucket is as it was.
   */
  lemma {:induction false} RenameRefused(objects: Objects, storagePrefix: string, oldPath: string, newPath: string)
    ensures var (after, o) := Rename(objects, storagePrefix, oldPath, newPath);
      exists src, dst :: PathSpec(oldPath, src) && PathSpec(newPath, dst) &&
        Outcomes(objects, storagePrefix, src, dst, after, o)
  {
    PathExact(oldPath);
    PathExact(newPath);
    var src, dst := ValidatePath(oldPath), ValidatePath(newPath);
    if src.Valid? && dst.Valid? {
      ExistsIff(objects, storagePrefix, src.normalizedPath);
      ExistsIff(objects, storagePrefix, dst.normalizedPath);
    }
    var (after, o) := Rename(objects, storagePrefix, oldPath, newPath);
    assert Outcomes(objects, storagePrefix, src, dst, after, o);
  }

  ghost predicate Outcomes(
      objects: Objects, storagePrefix: string, src: Validation, dst: Validation, after: Objects, o: Outcome)
  {
    if src.Invalid? then after == objects && o == Failed(SourceInvalid(src.error))
    else if dst.Invalid? then after == objects && o == Failed(DestinationInvalid(dst.error))
    else
      var a, b := src.normalizedPath, dst.normalizedPath;
      if a == b then after == objects && o == Renamed(a, b)
      else if a + "/" <= b then after == objects && o == Failed(IntoItself)
      else if Exists(objects, storagePrefix, b) then after == objects && o == Failed(DestinationExists)
      else if !Exists(objects, storagePrefix, a) then after == objects && o == Failed(SourceNotFound)
      else o == Renamed(a, b)
  }

  /**
   A successful rename of a directory to another path: a file inside the old directory is
   at the same place inside the new one, with its content, and no longer in the old one.
   */
  lemma {:induction false} FilesMove(
      objects: Objects, storagePrefix: string, oldPath: string, newPath: string, rest: string)
    requires Succeeded(objects, storagePrefix, oldPath, newPath) && rest != ""
    ensures var (after, o) := Rename(objects, storagePrefix, oldPath, newPath);
      var was := FileKey(storagePrefix, o.oldPath + "/" + rest);
      var is' := FileKey(storagePrefix, o.newPath + "/" + rest);
      && was !in after
      && (is' in after <==> was in objects)
      && (was in objects ==> after[is'] == objects[was])
  {
    var o := Rename(objects, storagePrefix, oldPath, newPath).1;
    KeyInside(storagePrefix, o.oldPath, rest);
    KeyInside(storagePrefix, o.newPath, rest);
    RenameConserves(objects, storagePrefix, oldPath, newPath, "", rest);
  }
}
