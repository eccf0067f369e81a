/**
 The incremental vector index. A document's chunks are compared with the stored
 hashes, only changed chunks are embedded and upserted, and ids no longer produced
 are deleted.
 */
module Indexer {
  import opened Chunker
  import opened VectorIds

  type Vector = seq<real>
  type EmbedFn = seq<string> -> seq<Vector>

  /** A vector with its metadata. */
  datatype Entry = Entry(values: Vector, path: string, prefix: string, startLine: nat, endLine: nat, hash: string)

  /** The vector index and the two records kept per path in agent storage. */
  datatype Store = Store(
    index: map<string, Entry>,
    hashes: map<string, map<nat, string>>,
    vectors: map<string, seq<string>>)

  type IdFn = (string, nat) -> string

  /** What an index is set up with: the namespace, the embedding, the content hash, the id rendering. */
  datatype Config = Config(prefix: string, embed: EmbedFn, hash: HashFn, vectorId: IdFn)

  datatype IndexResult = IndexResult(chunksTotal: nat, chunksEmbedded: nat, vectorsDeleted: nat)

  function IdsOf(cfg: Config, path: string, cs: seq<Chunk>): (r: seq<string>)
    ensures |r| == |cs| && forall k :: 0 <= k < |r| ==> r[k] == cfg.vectorId(path, cs[k].startLine)
  {
    seq(|cs|, k requires 0 <= k < |cs| => cfg.vectorId(path, cs[k].startLine))
  }

  function HashesOf(cs: seq<Chunk>): map<nat, string> {
    if cs == [] then map[]
    else HashesOf(cs[..|cs| - 1])[cs[|cs| - 1].startLine := cs[|cs| - 1].hash]
  }

  /** The chunks whose hash is not the one recorded at their start line. */
  function Changed(cs: seq<Chunk>, olds: map<nat, string>): (r: seq<Chunk>)
    ensures forall c :: c in r <==> c in cs && !(c.startLine in olds && olds[c.startLine] == c.hash)
  {
    if cs == [] then []
    else
      var c := cs[0];
      assert forall x :: x in cs <==> x == c || x in cs[1..];
      (if c.startLine in olds && olds[c.startLine] == c.hash then [] else [c]) + Changed(cs[1..], olds)
  }

  function Contents(cs: seq<Chunk>): (r: seq<string>)
    ensures |r| == |cs| && forall k :: 0 <= k < |r| ==> r[k] == cs[k].content
  {
    seq(|cs|, k requires 0 <= k < |cs| => cs[k].content)
  }

  function EntryFor(path: string, prefix: string, c: Chunk, values: Vector): Entry {
    Entry(values, path, prefix, c.startLine, c.endLine, c.hash)
  }

  /** `vectorizeIndex.upsert` of one entry per chunk, in order. */
  function Upsert(
      index: map<string, Entry>, cfg: Config, path: string, cs: seq<Chunk>, vs: seq<Vector>): map<string, Entry>
    requires |cs| == |vs|
  {
    if cs == [] then index
    else
      var n := |cs| - 1;
      var before := Upsert(index, cfg, path, cs[..n], vs[..n]);
      before[cfg.vectorId(path, cs[n].startLine) := EntryFor(path, cfg.prefix, cs[n], vs[n])]
  }

  /** The ids that are in `old` but not in `new`. */
  function Stale(olds: seq<string>, news: seq<string>): (r: seq<string>)
    ensures forall id :: id in r <==> id in olds && id !in news
  {
    if olds == [] then []
    else
      assert forall x :: x in olds <==> x == olds[0] || x in olds[1..];
      (if olds[0] in news then [] else [olds[0]]) + Stale(olds[1..], news)
  }

  function Delete(index: map<string, Entry>, ids: seq<string>): map<string, Entry> {
    map id | id in index && id !in ids :: index[id]
  }

  function OldHashes(s: Store, path: string): map<nat, string> {
    if path in s.hashes then s.hashes[path] else map[]
  }

  function OldIds(s: Store, path: string): seq<string> {
    if path in s.vectors then s.vectors[path] else []
  }

  /** The index after the upserts of one update and before its deletions. */
  function Upserted(s: Store, cfg: Config, path: string, cs: seq<Chunk>): map<string, Entry> {
    var changed := Changed(cs, OldHashes(s, path));
    var vs := cfg.embed(Contents(changed));
    if |changed| > 0 && |vs| == |changed| then Upsert(s.index, cfg, path, changed, vs) else s.index
  }

  /** The store after indexing `path` with the given chunks. */
  function IndexChunks(s: Store, cfg: Config, path: string, cs: seq<Chunk>): Store {
    Store(Delete(Upserted(s, cfg, path, cs), Stale(OldIds(s, path), IdsOf(cfg, path, cs))),
          s.hashes[path := HashesOf(cs)],
          s.vectors[path := IdsOf(cfg, path, cs)])
  }

  /** What one update reports: chunks, chunks embedded (none when `embed` gave a wrong number of vectors), stale ids. */
  function Report(s: Store, cfg: Config, path: string, cs: seq<Chunk>): IndexResult {
    var changed := Changed(cs, OldHashes(s, path));
    IndexResult(
      |cs|,
      if |cfg.embed(Contents(changed))| == |changed| then |changed| else 0,
      |Stale(OldIds(s, path), IdsOf(cfg, path, cs))|)
  }

  /** The store after removing `path`. */
  function RemovePath(s: Store, path: string): Store {
    Store(Delete(s.index, OldIds(s, path)), s.hashes - {path}, s.vectors - {path})
  }

  lemma {:induction false} DeleteNone(index: map<string, Entry>, ids: seq<string>)
    ensures ids == [] ==> Delete(index, ids) == index
  {}

  /** The loop that fills the new hash record, one property per chunk. */
  method CollectHashes(chunks: seq<Chunk>) returns (newHashes: map<nat, string>)
    ensures newHashes == HashesOf(chunks)
  {
    newHashes := map[];
    for k := 0 to |chunks|
      invariant newHashes == HashesOf(chunks[..k])
    {
      newHashes := newHashes[chunks[k].startLine := chunks[k].hash];
      assert chunks[..k + 1][..k] == chunks[..k];
    }
    assert chunks[..|chunks|] == chunks;
  }

  class VectorMemory {
    var index: map<string, Entry>
    var hashes: map<string, map<nat, string>>
    var vectors: map<string, seq<string>>
    const cfg: Config

    ghost function Records(): Store
      reads this
    {
      Store(index, hashes, vectors)
    }

    constructor (prefix: string, embed: EmbedFn, hash: HashFn)
      ensures Records() == Store(map[], map[], map[])
      ensures cfg == Config(prefix, embed, hash, VectorId)
    {
      index, hashes, vectors := map[], map[], map[];
      cfg := Config(prefix, embed, hash, VectorId);
    }

    method IndexDocument(path: string, content: string) returns (r: IndexResult)
      modifies this
      ensures Records() == IndexChunks(old(Records()), cfg, path, Chunks(content, cfg.hash))
      ensures r == Report(old(Records()), cfg, path, Chunks(content, cfg.hash))
    {
      var chunks := ChunkMarkdown(content, cfg.hash);
      r := IndexChunked(path, chunks);
    }

    /** The steps after chunking. */
    method IndexChunked(path: string, chunks: seq<Chunk>) returns (r: IndexResult)
      modifies this
      ensures Records() == IndexChunks(old(Records()), cfg, path, chunks)
      ensures r == Report(old(Records()), cfg, path, chunks)
    {
      var newIds := IdsOf(cfg, path, chunks);
      var newHashes := CollectHashes(chunks);
      var oldHashes := if path in hashes then hashes[path] else map[];
      var oldIds := if path in vectors then vectors[path] else [];
      var changedChunks := Changed(chunks, oldHashes);
      var chunksEmbedded := 0;
      if |changedChunks| > 0 {
        var embedded := cfg.embed(Contents(changedChunks));
        if |embedded| == |changedChunks| {
          index := Upsert(index, cfg, path, changedChunks, embedded);
          chunksEmbedded := |changedChunks|;
        }
      }
      var staleIds := Stale(oldIds, newIds);
      DeleteNone(index, staleIds);
      if |staleIds| > 0 {
        index := Delete(index, staleIds);
      }
      hashes := hashes[path := newHashes];
      vectors := vectors[path := newIds];
      r := IndexResult(|chunks|, chunksEmbedded, |staleIds|);
    }

    method RemoveDocument(path: string) returns (removed: nat)
      modifies this
      ensures Records() == RemovePath(old(Records()), path)
      ensures removed == |OldIds(old(Records()), path)|
    {
      var ids := if path in vectors then vectors[path] else [];
      DeleteNone(index, ids);
      if |ids| > 0 {
        index := Delete(index, ids);
      }
      hashes := hashes - {path};
      vectors := vectors - {path};
      removed := |ids|;
    }
  }
}
