/**
 Incremental indexing refines full re-indexing: whatever sequence of updates and
 removals led to the current documents, the store holds what indexing just those
 documents from nothing would hold, except for stale `endLine` metadata.
 */
module IndexTheorems {
  import opened Chunker
  import opened ChunkTheorems
  import opened VectorIds
  import opened Indexer

  type Docs = map<string, seq<Chunk>>

  // ---------- what is assumed of the foreign functions ----------

  ghost predicate CollisionFree(hash: HashFn) {
    forall a, b :: hash(a) == hash(b) ==> a == b
  }

  /** `embed` returns one vector per text, and it depends on that text alone. */
  ghost predicate Pointwise(embed: EmbedFn, value: string -> Vector) {
    forall texts :: |embed(texts)| == |texts| &&
      forall k :: 0 <= k < |texts| ==> embed(texts)[k] == value(texts[k])
  }

  ghost predicate IdsDistinct(vectorId: IdFn) {
    forall p: string, m: nat, q: string, n: nat :: vectorId(p, m) == vectorId(q, n) ==> p == q && m == n
  }

  /** What the foreign functions mean: a text's vector, and inverses of the id rendering and the hash. */
  datatype Meaning = Meaning(value: string -> Vector, keyOf: string -> (string, nat), textOf: string -> string)

  ghost predicate Suitable(cfg: Config, w: Meaning) {
    && Pointwise(cfg.embed, w.value)
    && (forall p: string, m: nat :: w.keyOf(cfg.vectorId(p, m)) == (p, m))
    && (forall a :: w.textOf(cfg.hash(a)) == a)
  }

  /** The ids the indexer uses are distinct. */
  lemma {:induction false} VectorIdsDistinct()
    ensures IdsDistinct(VectorId)
  {
    forall p: string, m: nat, q: string, n: nat | VectorId(p, m) == VectorId(q, n) ensures p == q && m == n {
      VectorIdInjective(p, m, q, n);
    }
  }

  ghost function KeyOf(vectorId: IdFn, id: string): (string, nat) {
    if exists p: string, m: nat :: vectorId(p, m) == id
    then var p: string, m: nat :| vectorId(p, m) == id; (p, m)
    else ("", 0)
  }

  ghost function TextOf(hash: HashFn, h: string): string {
    if exists a :: hash(a) == h then var a :| hash(a) == h; a else ""
  }

  /** Distinct ids and a collision-free hash have inverses. */
  lemma {:induction false} MeaningExists(cfg: Config, value: string -> Vector) returns (w: Meaning)
    requires Pointwise(cfg.embed, value) && IdsDistinct(cfg.vectorId) && CollisionFree(cfg.hash)
    ensures Suitable(cfg, w) && w.value == value
  {
    w := Meaning(value, id => KeyOf(cfg.vectorId, id), h => TextOf(cfg.hash, h));
    forall p: string, m: nat ensures KeyOf(cfg.vectorId, cfg.vectorId(p, m)) == (p, m) {
      var id := cfg.vectorId(p, m);
      var key := KeyOf(cfg.vectorId, id);
      assert cfg.vectorId(key.0, key.1) == id;
    }
    forall a ensures TextOf(cfg.hash, cfg.hash(a)) == a {
      assert cfg.hash(TextOf(cfg.hash, cfg.hash(a))) == cfg.hash(a);
    }
  }

  // ---------- a store in step with its documents ----------

  ghost predicate Increasing(cs: seq<Chunk>) {
    forall i, j :: 0 <= i < j < |cs| ==> cs[i].startLine < cs[j].startLine
  }

  /** What the chunker guarantees of a document's chunks. */
  ghost predicate Proper(cs: seq<Chunk>, hash: HashFn) {
    Increasing(cs) && forall k :: 0 <= k < |cs| ==> cs[k].hash == hash(cs[k].content)
  }

  ghost predicate AllProper(docs: Docs, hash: HashFn) {
    forall p :: p in docs ==> Proper(docs[p], hash)
  }

  /** The index holds the chunk under its id, with its metadata and vector; `endLine` is not compared. */
  ghost predicate Holds(index: map<string, Entry>, cfg: Config, w: Meaning, path: string, c: Chunk) {
    var id := cfg.vectorId(path, c.startLine);
    && id in index
    && index[id].values == w.value(c.content)
    && index[id].path == path && index[id].prefix == cfg.prefix
    && index[id].startLine == c.startLine && index[id].hash == c.hash
  }

  ghost predicate Listed(docs: Docs, cfg: Config, id: string) {
    exists p :: p in docs && id in IdsOf(cfg, p, docs[p])
  }

  ghost predicate RecordIs(hashes: map<nat, string>, ids: seq<string>, cfg: Config, p: string, cs: seq<Chunk>) {
    hashes == HashesOf(cs) && ids == IdsOf(cfg, p, cs)
  }

  /** The stored records are those of the documents. */
  ghost predicate RecordsMatch(s: Store, cfg: Config, docs: Docs) {
    && s.hashes.Keys == docs.Keys && s.vectors.Keys == docs.Keys
    && forall p :: p in docs ==> RecordIs(s.hashes[p], s.vectors[p], cfg, p, docs[p])
  }

  /** Every id in the index belongs to a current chunk. */
  ghost predicate NoStray(index: map<string, Entry>, cfg: Config, docs: Docs) {
    forall id :: id in index ==> Listed(docs, cfg, id)
  }

  /** Every current chunk is in the index. */
  ghost predicate AllHeld(index: map<string, Entry>, cfg: Config, w: Meaning, docs: Docs) {
    forall p, k :: p in docs && 0 <= k < |docs[p]| ==> Holds(index, cfg, w, p, docs[p][k])
  }

  ghost predicate Synced(s: Store, cfg: Config, w: Meaning, docs: Docs) {
    RecordsMatch(s, cfg, docs) && NoStray(s.index, cfg, docs) && AllHeld(s.index, cfg, w, docs)
  }

  // ---------- the records ----------

  lemma {:induction false} HashesAt(cs: seq<Chunk>, k: nat)
    requires Increasing(cs) && k < |cs|
    ensures cs[k].startLine in HashesOf(cs) && HashesOf(cs)[cs[k].startLine] == cs[k].hash
    decreases cs
  {
    var n := |cs| - 1;
    if k < n {
      HashesAt(cs[..n], k);
    }
  }

  lemma {:induction false} HashesOnly(cs: seq<Chunk>, line: nat) returns (k: nat)
    requires line in HashesOf(cs)
    ensures k < |cs| && cs[k].startLine == line && HashesOf(cs)[line] == cs[k].hash
    decreases cs
  {
    var n := |cs| - 1;
    if cs[n].startLine == line {
      return n;
    }
    k := HashesOnly(cs[..n], line);
  }

  lemma {:induction false} ChangedIncreasing(cs: seq<Chunk>, olds: map<nat, string>)
    requires Increasing(cs)
    ensures Increasing(Changed(cs, olds))
    decreases cs
  {
    if cs != [] {
      var rest := Changed(cs[1..], olds);
      ChangedIncreasing(cs[1..], olds);
      forall k | 0 <= k < |rest| ensures cs[0].startLine < rest[k].startLine {
        assert rest[k] in cs[1..];
      }
    }
  }

  lemma {:induction false} UpsertAt(
      index: map<string, Entry>, cfg: Config, path: string, cs: seq<Chunk>, vs: seq<Vector>, k: nat,
      keyOf: string -> (string, nat))
    requires forall m: nat :: keyOf(cfg.vectorId(path, m)) == (path, m)
    requires |cs| == |vs| && k < |cs| && Increasing(cs)
    ensures var id := cfg.vectorId(path, cs[k].startLine);
      var r := Upsert(index, cfg, path, cs, vs);
      id in r && r[id] == EntryFor(path, cfg.prefix, cs[k], vs[k])
    decreases cs
  {
    var n := |cs| - 1;
    if k < n {
      UpsertAt(index, cfg, path, cs[..n], vs[..n], k, keyOf);
      assert keyOf(cfg.vectorId(path, cs[k].startLine)) != keyOf(cfg.vectorId(path, cs[n].startLine));
    }
  }

  lemma {:induction false} UpsertElsewhere(
      index: map<string, Entry>, cfg: Config, path: string, cs: seq<Chunk>, vs: seq<Vector>, id: string)
    requires |cs| == |vs| && id !in IdsOf(cfg, path, cs)
    ensures var r := Upsert(index, cfg, path, cs, vs);
      (id in r <==> id in index) && (id in index ==> r[id] == index[id])
    decreases cs
  {
    if cs != [] {
      var n := |cs| - 1;
      assert IdsOf(cfg, path, cs)[n] != id;
      assert IdsOf(cfg, path, cs[..n]) == IdsOf(cfg, path, cs)[..n];
      UpsertElsewhere(index, cfg, path, cs[..n], vs[..n], id);
    }
  }

  /** An id is listed for a path only at the same path and one of its start lines. */
  lemma {:induction false} NotAmongIds(cfg: Config, w: Meaning, p: string, line: nat, q: string, cs: seq<Chunk>)
    requires Suitable(cfg, w)
    requires p != q || forall k :: 0 <= k < |cs| ==> cs[k].startLine != line
    ensures cfg.vectorId(p, line) !in IdsOf(cfg, q, cs)
  {
    forall k | 0 <= k < |cs| ensures IdsOf(cfg, q, cs)[k] != cfg.vectorId(p, line) {
      assert w.keyOf(cfg.vectorId(q, cs[k].startLine)) == (q, cs[k].startLine);
      assert w.keyOf(cfg.vectorId(p, line)) == (p, line);
    }
  }

  // ---------- one update ----------

  lemma {:induction false} UpsertedElsewhere(s: Store, cfg: Config, path: string, cs: seq<Chunk>, id: string)
    requires id !in IdsOf(cfg, path, cs)
    ensures var r := Upserted(s, cfg, path, cs);
      (id in r <==> id in s.index) && (id in s.index ==> r[id] == s.index[id])
  {
    var changed := Changed(cs, OldHashes(s, path));
    var vs := cfg.embed(Contents(changed));
    forall k | 0 <= k < |changed| ensures IdsOf(cfg, path, changed)[k] in IdsOf(cfg, path, cs) {
      assert changed[k] in changed;
      var j :| 0 <= j < |cs| && cs[j] == changed[k];
      assert IdsOf(cfg, path, cs)[j] == IdsOf(cfg, path, changed)[k];
    }
    if |vs| == |changed| {
      UpsertElsewhere(s.index, cfg, path, changed, vs, id);
    }
  }

  /** A changed chunk is upserted with its own vector; an unchanged one is left alone. */
  lemma {:induction false} UpsertedAt(s: Store, cfg: Config, w: Meaning, path: string, cs: seq<Chunk>, k: nat)
    requires Suitable(cfg, w) && Increasing(cs) && k < |cs|
    ensures var r := Upserted(s, cfg, path, cs);
      var c := cs[k];
      var id := cfg.vectorId(path, c.startLine);
      if c.startLine in OldHashes(s, path) && OldHashes(s, path)[c.startLine] == c.hash
      then (id in r <==> id in s.index) && (id in s.index ==> r[id] == s.index[id])
      else id in r && r[id] == EntryFor(path, cfg.prefix, c, w.value(c.content))
  {
    var olds := OldHashes(s, path);
    var changed := Changed(cs, olds);
    var vs := cfg.embed(Contents(changed));
    assert |vs| == |changed|;
    var c := cs[k];
    ChangedIncreasing(cs, olds);
    if c in changed {
      var j :| 0 <= j < |changed| && changed[j] == c;
      UpsertAt(s.index, cfg, path, changed, vs, j, w.keyOf);
      assert vs[j] == w.value(Contents(changed)[j]);
    } else {
      forall j | 0 <= j < |changed| ensures changed[j].startLine == c.startLine ==> changed[j] == c {
        assert changed[j] in changed;
      }
      NotAmongIds(cfg, w, path, c.startLine, path, changed);
      UpsertElsewhere(s.index, cfg, path, changed, vs, cfg.vectorId(path, c.startLine));
    }
  }

  /** A chunk whose hash is already recorded has the content of the old chunk at its start line. */
  lemma {:induction false} KeptChunk(
      hash: HashFn, textOf: string -> string, olds: seq<Chunk>, c: Chunk) returns (k: nat)
    requires (forall a :: textOf(hash(a)) == a) && Proper(olds, hash) && c.hash == hash(c.content)
    requires c.startLine in HashesOf(olds) && HashesOf(olds)[c.startLine] == c.hash
    ensures k < |olds| && olds[k].startLine == c.startLine
    ensures olds[k].content == c.content && olds[k].hash == c.hash
  {
    k := HashesOnly(olds, c.startLine);
    assert textOf(hash(olds[k].content)) == textOf(hash(c.content));
  }

  /** The records of one path are those of these chunks, and the index holds them. */
  ghost predicate PathSynced(s: Store, cfg: Config, w: Meaning, path: string, olds: seq<Chunk>) {
    && Proper(olds, cfg.hash)
    && path in s.hashes && s.hashes[path] == HashesOf(olds)
    && path in s.vectors && s.vectors[path] == IdsOf(cfg, path, olds)
    && forall j :: 0 <= j < |olds| ==> Holds(s.index, cfg, w, path, olds[j])
  }

  /** A path is unknown to the store, or in step with some chunks. */
  ghost predicate PathSettled(s: Store, cfg: Config, w: Meaning, path: string) {
    (path !in s.hashes && path !in s.vectors) || exists olds :: PathSynced(s, cfg, w, path, olds)
  }

  lemma {:induction false} SyncedPath(s: Store, cfg: Config, w: Meaning, docs: Docs, path: string)
    requires Synced(s, cfg, w, docs) && AllProper(docs, cfg.hash)
    ensures PathSettled(s, cfg, w, path)
    ensures path in docs ==> PathSynced(s, cfg, w, path, docs[path])
  {
    assert s.hashes.Keys == docs.Keys && s.vectors.Keys == docs.Keys;
    if path in docs {
      assert RecordIs(s.hashes[path], s.vectors[path], cfg, path, docs[path]);
      assert PathSynced(s, cfg, w, path, docs[path]);
    } else {
      assert path !in s.hashes.Keys && path !in s.vectors.Keys;
    }
  }

  lemma {:induction false} NewChunkHeld(s: Store, cfg: Config, w: Meaning, path: string, cs: seq<Chunk>, k: nat)
    requires Suitable(cfg, w) && PathSettled(s, cfg, w, path) && Proper(cs, cfg.hash) && k < |cs|
    ensures Holds(IndexChunks(s, cfg, path, cs).index, cfg, w, path, cs[k])
  {
    UpsertedHeld(s, cfg, w, path, cs, k);
    NotStale(s, cfg, path, cs, k);
  }

  lemma {:induction false} UpsertedHeld(s: Store, cfg: Config, w: Meaning, path: string, cs: seq<Chunk>, k: nat)
    requires Suitable(cfg, w) && PathSettled(s, cfg, w, path) && Proper(cs, cfg.hash) && k < |cs|
    ensures Holds(Upserted(s, cfg, path, cs), cfg, w, path, cs[k])
  {
    var c := cs[k];
    UpsertedAt(s, cfg, w, path, cs, k);
    if c.startLine in OldHashes(s, path) && OldHashes(s, path)[c.startLine] == c.hash {
      var olds :| PathSynced(s, cfg, w, path, olds);
      KeptHeld(s.index, cfg, w, path, olds, c);
    }
  }

  lemma {:induction false} KeptHeld(
      index: map<string, Entry>, cfg: Config, w: Meaning, path: string, olds: seq<Chunk>, c: Chunk)
    requires Suitable(cfg, w) && Proper(olds, cfg.hash) && c.hash == cfg.hash(c.content)
    requires forall j :: 0 <= j < |olds| ==> Holds(index, cfg, w, path, olds[j])
    requires c.startLine in HashesOf(olds) && HashesOf(olds)[c.startLine] == c.hash
    ensures Holds(index, cfg, w, path, c)
  {
    var j := KeptChunk(cfg.hash, w.textOf, olds, c);
    assert Holds(index, cfg, w, path, olds[j]);
  }

  /** A current id survives the deletions. */
  lemma {:induction false} NotStale(s: Store, cfg: Config, path: string, cs: seq<Chunk>, k: nat)
    requires k < |cs|
    ensures var id := cfg.vectorId(path, cs[k].startLine);
      var before, after := Upserted(s, cfg, path, cs), IndexChunks(s, cfg, path, cs).index;
      (id in before <==> id in after) && (id in before ==> after[id] == before[id])
  {
    assert IdsOf(cfg, path, cs)[k] in IdsOf(cfg, path, cs);
  }

  ghost predicate SameEntry(m: map<string, Entry>, n: map<string, Entry>, id: string) {
    (id in m <==> id in n) && (id in m ==> m[id] == n[id])
  }

  /** An update leaves the entries of other paths alone. */
  lemma {:induction false} OtherEntryKept(
      s: Store, cfg: Config, w: Meaning, path: string, cs: seq<Chunk>, p: string, line: nat)
    requires Suitable(cfg, w) && PathSettled(s, cfg, w, path) && p != path
    ensures SameEntry(s.index, IndexChunks(s, cfg, path, cs).index, cfg.vectorId(p, line))
  {
    NotAmongIds(cfg, w, p, line, path, cs);
    UpsertedElsewhere(s, cfg, path, cs, cfg.vectorId(p, line));
    if path in s.vectors {
      var olds :| PathSynced(s, cfg, w, path, olds);
      NotAmongIds(cfg, w, p, line, path, olds);
    }
  }

  lemma {:induction false} IndexNoStray(s: Store, cfg: Config, docs: Docs, path: string, cs: seq<Chunk>)
    requires RecordsMatch(s, cfg, docs) && NoStray(s.index, cfg, docs)
    ensures NoStray(IndexChunks(s, cfg, path, cs).index, cfg, docs[path := cs])
  {
    var docs' := docs[path := cs];
    forall id | id in IndexChunks(s, cfg, path, cs).index ensures Listed(docs', cfg, id) {
      if id in IdsOf(cfg, path, cs) {
        assert path in docs' && docs'[path] == cs;
      } else {
        UpsertedElsewhere(s, cfg, path, cs, id);
        var p :| p in docs && id in IdsOf(cfg, p, docs[p]);
        assert RecordIs(s.hashes[p], s.vectors[p], cfg, p, docs[p]);
        assert p in docs' && docs'[p] == docs[p];
      }
    }
  }

  lemma {:induction false} IndexAllHeld(s: Store, cfg: Config, w: Meaning, docs: Docs, path: string, cs: seq<Chunk>)
    requires Suitable(cfg, w) && Synced(s, cfg, w, docs) && AllProper(docs, cfg.hash) && Proper(cs, cfg.hash)
    ensures AllHeld(IndexChunks(s, cfg, path, cs).index, cfg, w, docs[path := cs])
  {
    SyncedPath(s, cfg, w, docs, path);
    SettledAllHeld(s, cfg, w, docs, path, cs);
  }

  lemma {:induction false} SettledAllHeld(s: Store, cfg: Config, w: Meaning, docs: Docs, path: string, cs: seq<Chunk>)
    requires Suitable(cfg, w) && PathSettled(s, cfg, w, path) && AllHeld(s.index, cfg, w, docs) && Proper(cs, cfg.hash)
    ensures AllHeld(IndexChunks(s, cfg, path, cs).index, cfg, w, docs[path := cs])
  {
    var index := IndexChunks(s, cfg, path, cs).index;
    forall k | 0 <= k < |cs| ensures Holds(index, cfg, w, path, cs[k]) {
      NewChunkHeld(s, cfg, w, path, cs, k);
    }
    forall p, k | p in docs && p != path && 0 <= k < |docs[p]| ensures Holds(index, cfg, w, p, docs[p][k]) {
      OtherEntryKept(s, cfg, w, path, cs, p, docs[p][k].startLine);
      assert Holds(s.index, cfg, w, p, docs[p][k]);
    }
    HeldSplit(index, cfg, w, docs, path, cs);
  }

  lemma {:induction false} HeldSplit(
      index: map<string, Entry>, cfg: Config, w: Meaning, docs: Docs, path: string, cs: seq<Chunk>)
    requires forall k :: 0 <= k < |cs| ==> Holds(index, cfg, w, path, cs[k])
    requires forall p, k :: p in docs && p != path && 0 <= k < |docs[p]| ==> Holds(index, cfg, w, p, docs[p][k])
    ensures AllHeld(index, cfg, w, docs[path := cs])
  {}

  lemma {:induction false} IndexRecordsMatch(s: Store, cfg: Config, docs: Docs, path: string, cs: seq<Chunk>)
    requires RecordsMatch(s, cfg, docs)
    ensures RecordsMatch(IndexChunks(s, cfg, path, cs), cfg, docs[path := cs])
  {
    var s' := IndexChunks(s, cfg, path, cs);
    SetRecords(s, s', cfg, docs, path, cs);
  }

  lemma {:induction false} SetRecords(s: Store, s': Store, cfg: Config, docs: Docs, path: string, cs: seq<Chunk>)
    requires RecordsMatch(s, cfg, docs)
    requires s'.hashes == s.hashes[path := HashesOf(cs)] && s'.vectors == s.vectors[path := IdsOf(cfg, path, cs)]
    ensures RecordsMatch(s', cfg, docs[path := cs])
  {
    var docs' := docs[path := cs];
    assert s'.hashes.Keys == docs'.Keys && s'.vectors.Keys == docs'.Keys;
    forall p | p in docs' ensures RecordIs(s'.hashes[p], s'.vectors[p], cfg, p, docs'[p]) {
      if p != path {
        assert RecordIs(s.hashes[p], s.vectors[p], cfg, p, docs[p]);
      }
    }
  }

  lemma {:induction false} IndexKeepsSynced(s: Store, cfg: Config, w: Meaning, docs: Docs, path: string, cs: seq<Chunk>)
    requires Suitable(cfg, w) && Synced(s, cfg, w, docs) && AllProper(docs, cfg.hash) && Proper(cs, cfg.hash)
    ensures Synced(IndexChunks(s, cfg, path, cs), cfg, w, docs[path := cs])
  {
    IndexRecordsMatch(s, cfg, docs, path, cs);
    IndexNoStray(s, cfg, docs, path, cs);
    IndexAllHeld(s, cfg, w, docs, path, cs);
  }

  lemma {:induction false} RemoveRecordsMatch(s: Store, cfg: Config, docs: Docs, path: string)
    requires RecordsMatch(s, cfg, docs)
    ensures RecordsMatch(RemovePath(s, path), cfg, docs - {path})
  {
    var s', docs' := RemovePath(s, path), docs - {path};
    forall p | p in docs' ensures RecordIs(s'.hashes[p], s'.vectors[p], cfg, p, docs'[p]) {
      assert RecordIs(s.hashes[p], s.vectors[p], cfg, p, docs[p]);
    }
  }

  lemma {:induction false} RemoveNoStray(s: Store, cfg: Config, docs: Docs, path: string)
    requires RecordsMatch(s, cfg, docs) && NoStray(s.index, cfg, docs)
    ensures NoStray(RemovePath(s, path).index, cfg, docs - {path})
  {
    assert path in docs ==> RecordIs(s.hashes[path], s.vectors[path], cfg, path, docs[path]);
    forall id | id in RemovePath(s, path).index ensures Listed(docs - {path}, cfg, id) {
      var p :| p in docs && id in IdsOf(cfg, p, docs[p]);
      assert p in docs - {path} && (docs - {path})[p] == docs[p];
    }
  }

  lemma {:induction false} RemoveEntryKept(s: Store, cfg: Config, w: Meaning, path: string, p: string, line: nat)
    requires Suitable(cfg, w) && PathSettled(s, cfg, w, path) && p != path
    ensures SameEntry(s.index, RemovePath(s, path).index, cfg.vectorId(p, line))
  {
    if path in s.vectors {
      var olds :| PathSynced(s, cfg, w, path, olds);
      NotAmongIds(cfg, w, p, line, path, olds);
    }
  }

  lemma {:induction false} RemoveAllHeld(s: Store, cfg: Config, w: Meaning, docs: Docs, path: string)
    requires Suitable(cfg, w) && PathSettled(s, cfg, w, path) && AllHeld(s.index, cfg, w, docs)
    ensures AllHeld(RemovePath(s, path).index, cfg, w, docs - {path})
  {
    var index, docs' := RemovePath(s, path).index, docs - {path};
    forall p, k | p in docs' && 0 <= k < |docs'[p]| ensures Holds(index, cfg, w, p, docs'[p][k]) {
      RemoveEntryKept(s, cfg, w, path, p, docs[p][k].startLine);
      assert Holds(s.index, cfg, w, p, docs[p][k]);
    }
  }

  lemma {:induction false} RemoveKeepsSynced(s: Store, cfg: Config, w: Meaning, docs: Docs, path: string)
    requires Suitable(cfg, w) && Synced(s, cfg, w, docs) && AllProper(docs, cfg.hash)
    ensures Synced(RemovePath(s, path), cfg, w, docs - {path})
  {
    SyncedPath(s, cfg, w, docs, path);
    RemoveRecordsMatch(s, cfg, docs, path);
    RemoveNoStray(s, cfg, docs, path);
    RemoveAllHeld(s, cfg, w, docs, path);
  }

  // ---------- runs ----------

  datatype Op = Index(path: string, content: string) | Remove(path: string)

  function Apply(s: Store, cfg: Config, op: Op): Store {
    match op
    case Index(path, content) => IndexChunks(s, cfg, path, Chunks(content, cfg.hash))
    case Remove(path) => RemovePath(s, path)
  }

  function Run(cfg: Config, ops: seq<Op>): Store {
    if ops == [] then Store(map[], map[], map[])
    else Apply(Run(cfg, ops[..|ops| - 1]), cfg, ops[|ops| - 1])
  }

  function Update(latest: map<string, string>, op: Op): map<string, string> {
    match op
    case Index(path, content) => latest[path := content]
    case Remove(path) => latest - {path}
  }

  /** The current documents after the operations. */
  function Latest(ops: seq<Op>): map<string, string> {
    if ops == [] then map[] else Update(Latest(ops[..|ops| - 1]), ops[|ops| - 1])
  }

  function ChunkedDocs(latest: map<string, string>, hash: HashFn): Docs {
    map p | p in latest :: Chunks(latest[p], hash)
  }

  lemma {:induction false} ChunksProper(content: string, hash: HashFn)
    ensures Proper(Chunks(content, hash), hash)
  {
    var cs := Chunks(content, hash);
    forall i, j | 0 <= i < j < |cs| ensures cs[i].startLine < cs[j].startLine {
      ChunkLinesOrdered(content, hash, i, j);
    }
    forall k | 0 <= k < |cs| ensures cs[k].hash == hash(cs[k].content) {
      var _, _, _ := ChunkAt(content, hash, k);
    }
  }

  lemma {:induction false} DocsProper(latest: map<string, string>, hash: HashFn)
    ensures AllProper(ChunkedDocs(latest, hash), hash)
  {
    forall p | p in latest ensures Proper(ChunkedDocs(latest, hash)[p], hash) {
      ChunksProper(latest[p], hash);
    }
  }

  lemma {:induction false} ChunkedUpdate(latest: map<string, string>, hash: HashFn, op: Op)
    ensures ChunkedDocs(Update(latest, op), hash) ==
      match op
      case Index(path, content) => ChunkedDocs(latest, hash)[path := Chunks(content, hash)]
      case Remove(path) => ChunkedDocs(latest, hash) - {path}
  {}

  lemma {:induction false} StepSynced(s: Store, cfg: Config, w: Meaning, latest: map<string, string>, op: Op)
    requires Suitable(cfg, w) && Synced(s, cfg, w, ChunkedDocs(latest, cfg.hash))
    ensures Synced(Apply(s, cfg, op), cfg, w, ChunkedDocs(Update(latest, op), cfg.hash))
  {
    var docs := ChunkedDocs(latest, cfg.hash);
    DocsProper(latest, cfg.hash);
    ChunkedUpdate(latest, cfg.hash, op);
    if op.Index? {
      ChunksProper(op.content, cfg.hash);
      IndexKeepsSynced(s, cfg, w, docs, op.path, Chunks(op.content, cfg.hash));
    } else {
      RemoveKeepsSynced(s, cfg, w, docs, op.path);
    }
  }

  /** After any run the store matches the current documents. */
  lemma {:induction false} RunSynced(cfg: Config, w: Meaning, ops: seq<Op>)
    requires Suitable(cfg, w)
    ensures Synced(Run(cfg, ops), cfg, w, ChunkedDocs(Latest(ops), cfg.hash))
    decreases ops
  {
    if ops == [] {
      assert ChunkedDocs(Latest(ops), cfg.hash) == map[];
    } else {
      var init := ops[..|ops| - 1];
      RunSynced(cfg, w, init);
      StepSynced(Run(cfg, init), cfg, w, Latest(init), ops[|ops| - 1]);
    }
  }

  // ---------- refinement ----------

  lemma {:induction false} IndexWithin(
      m: map<string, Entry>, n: map<string, Entry>, cfg: Config, w: Meaning, docs: Docs)
    requires NoStray(m, cfg, docs) && AllHeld(m, cfg, w, docs) && AllHeld(n, cfg, w, docs)
    ensures Within(m, n)
  {
    forall id | id in m ensures id in n && m[id].(endLine := 0) == n[id].(endLine := 0) {
      var p :| p in docs && id in IdsOf(cfg, p, docs[p]);
      var k :| 0 <= k < |docs[p]| && IdsOf(cfg, p, docs[p])[k] == id;
      var c := docs[p][k];
      assert Holds(m, cfg, w, p, c) && Holds(n, cfg, w, p, c);
    }
  }

  lemma {:induction false} RecordsUnique(s: Store, t: Store, cfg: Config, docs: Docs)
    requires RecordsMatch(s, cfg, docs) && RecordsMatch(t, cfg, docs)
    ensures s.hashes == t.hashes && s.vectors == t.vectors
  {
    forall p | p in docs ensures s.hashes[p] == t.hashes[p] && s.vectors[p] == t.vectors[p] {
      assert RecordIs(s.hashes[p], s.vectors[p], cfg, p, docs[p]);
      assert RecordIs(t.hashes[p], t.vectors[p], cfg, p, docs[p]);
    }
  }

  /** Equal records, equal ids, and entries that differ at most in `endLine`. */
  ghost predicate Agree(s: Store, t: Store) {
    && s.hashes == t.hashes && s.vectors == t.vectors && s.index.Keys == t.index.Keys
    && forall id :: id in s.index ==> s.index[id].(endLine := 0) == t.index[id].(endLine := 0)
  }

  /**
   Refinement: the store depends on the current documents only. Any run agrees with
   any other run that ends in the same documents, in particular with one that starts
   from nothing and indexes each current document once.
   */
  lemma {:induction false} IncrementalRefinesFull(
      prefix: string, embed: EmbedFn, hash: HashFn, value: string -> Vector, ops: seq<Op>, rebuild: seq<Op>)
    requires Pointwise(embed, value) && CollisionFree(hash)
    requires Latest(ops) == Latest(rebuild)
    ensures var cfg := Config(prefix, embed, hash, VectorId); Agree(Run(cfg, ops), Run(cfg, rebuild))
  {
    VectorIdsDistinct();
    var cfg := Config(prefix, embed, hash, VectorId);
    var w := MeaningExists(cfg, value);
    RunsAgree(cfg, w, ops, rebuild);
  }

  lemma {:induction false} RunsAgree(cfg: Config, w: Meaning, ops: seq<Op>, rebuild: seq<Op>)
    requires Suitable(cfg, w) && Latest(ops) == Latest(rebuild)
    ensures Agree(Run(cfg, ops), Run(cfg, rebuild))
  {
    RunSynced(cfg, w, ops);
    RunSynced(cfg, w, rebuild);
    SyncedUnique(Run(cfg, ops), Run(cfg, rebuild), cfg, w, ChunkedDocs(Latest(ops), cfg.hash));
  }

  lemma {:induction false} SyncedUnique(s: Store, t: Store, cfg: Config, w: Meaning, docs: Docs)
    requires Synced(s, cfg, w, docs) && Synced(t, cfg, w, docs)
    ensures Agree(s, t)
  {
    RecordsUnique(s, t, cfg, docs);
    IndexWithin(s.index, t.index, cfg, w, docs);
    IndexWithin(t.index, s.index, cfg, w, docs);
    KeysEqual(s.index, t.index);
  }

  ghost predicate Within(m: map<string, Entry>, n: map<string, Entry>) {
    forall id :: id in m ==> id in n && m[id].(endLine := 0) == n[id].(endLine := 0)
  }

  lemma {:induction false} KeysEqual(m: map<string, Entry>, n: map<string, Entry>)
    requires Within(m, n) && Within(n, m)
    ensures m.Keys == n.Keys
  {}

  // ---------- entries, field by field ----------

  /** What the store holds for one chunk of the current document at the path. */
  ghost predicate EntryRight(
      s: Store, prefix: string, value: string -> Vector, hash: HashFn, path: string, cs: seq<Chunk>, k: nat)
    requires k < |cs|
  {
    var c, id := cs[k], VectorId(path, cs[k].startLine);
    && id in s.index
    && s.index[id].values == value(c.content)
    && s.index[id].path == path && s.index[id].prefix == prefix
    && s.index[id].startLine == c.startLine && s.index[id].hash == hash(c.content)
    && path in s.hashes && c.startLine in s.hashes[path] && s.hashes[path][c.startLine] == hash(c.content)
    && path in s.vectors && |s.vectors[path]| == |cs| && s.vectors[path][k] == id
  }

  /**
   After any run, every chunk of every current document has its entry, with its own
   vector and metadata, and its hash and id in the records of its path.
   */
  lemma {:induction false} RunEntries(
      prefix: string, embed: EmbedFn, hash: HashFn, value: string -> Vector, ops: seq<Op>, path: string, k: nat)
    requires Pointwise(embed, value) && CollisionFree(hash)
    requires path in Latest(ops) && k < |Chunks(Latest(ops)[path], hash)|
    ensures EntryRight(
      Run(Config(prefix, embed, hash, VectorId), ops), prefix, value, hash, path, Chunks(Latest(ops)[path], hash), k)
  {
    VectorIdsDistinct();
    var cfg := Config(prefix, embed, hash, VectorId);
    var w := MeaningExists(cfg, value);
    RunSynced(cfg, w, ops);
    ChunksProper(Latest(ops)[path], hash);
    SyncedEntry(Run(cfg, ops), cfg, w, ChunkedDocs(Latest(ops), hash), path, k);
  }

  lemma {:induction false} SyncedEntry(s: Store, cfg: Config, w: Meaning, docs: Docs, path: string, k: nat)
    requires Synced(s, cfg, w, docs) && cfg.vectorId == VectorId
    requires path in docs && Proper(docs[path], cfg.hash) && k < |docs[path]|
    ensures EntryRight(s, cfg.prefix, w.value, cfg.hash, path, docs[path], k)
  {
    assert Holds(s.index, cfg, w, path, docs[path][k]);
    assert s.hashes.Keys == docs.Keys && s.vectors.Keys == docs.Keys;
    assert RecordIs(s.hashes[path], s.vectors[path], cfg, path, docs[path]);
    HashesAt(docs[path], k);
  }
}
