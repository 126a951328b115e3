/** An in-memory stand-in for the Chroma collection the indexer writes to: the
    chunks it holds, keyed by id. Embeddings and persistence are not modelled. */
module VectorStore {
  import opened ChunkIds

  /** The ids carried by the chunks of cs. */
  function IdSet(cs: seq<Chunk>): set<string> {
    set c | c in cs && c.id.Some? :: c.id.value
  }

  /** A sub-collection of chunks carries no id the whole does not. */
  lemma IdSetMonotone(part: seq<Chunk>, whole: seq<Chunk>)
    requires forall c :: c in part ==> c in whole
    ensures IdSet(part) <= IdSet(whole)
  {
  }

  /** The entries after writing each chunk of cs in turn under its own id. A write
      under an id already present replaces the entry (Chroma's upsert), so for an id
      that occurs twice the later chunk wins. */
  function ApplyWrites(m: map<string, Chunk>, cs: seq<Chunk>): (r: map<string, Chunk>)
    requires Identified(cs)
    ensures r.Keys == m.Keys + IdSet(cs)
  {
    if cs == [] then m
    else
      var last := cs[|cs| - 1];
      var front := cs[..|cs| - 1];
      assert IdSet(cs) == IdSet(front) + {last.id.value} by {
        assert cs == front + [last];
      }
      ApplyWrites(m, front)[last.id.value := last]
  }

  /** An entry whose id no chunk of cs carries is left as it was. */
  lemma {:induction false} ApplyWritesKeepsOthers(m: map<string, Chunk>, cs: seq<Chunk>, id: string)
    requires Identified(cs)
    requires id in m && id !in IdSet(cs)
    ensures ApplyWrites(m, cs)[id] == m[id]
  {
    if cs != [] {
      var front := cs[..|cs| - 1];
      assert cs == front + [cs[|cs| - 1]];
      assert IdSet(front) <= IdSet(cs);
      ApplyWritesKeepsOthers(m, front, id);
    }
  }

  /** Writing a then b is writing a + b. */
  lemma {:induction false} ApplyWritesAppend(m: map<string, Chunk>, a: seq<Chunk>, b: seq<Chunk>)
    requires Identified(a) && Identified(b)
    ensures Identified(a + b)
    ensures ApplyWrites(m, a + b) == ApplyWrites(ApplyWrites(m, a), b)
    decreases |b|
  {
    if b == [] {
      assert a + b == a;
    } else {
      var front := b[..|b| - 1];
      assert (a + b)[..|a + b| - 1] == a + front;
      ApplyWritesAppend(m, a, front);
    }
  }

  /** A chunk that no later chunk of cs overwrites is what the store holds under its id. */
  lemma {:induction false} LastWriteWins(m: map<string, Chunk>, cs: seq<Chunk>, k: nat)
    requires Identified(cs) && k < |cs|
    requires forall l :: k < l < |cs| ==> cs[l].id != cs[k].id
    ensures cs[k].id.value in ApplyWrites(m, cs)
    ensures ApplyWrites(m, cs)[cs[k].id.value] == cs[k]
  {
    var front := cs[..|cs| - 1];
    assert cs[k] in cs;
    if k < |cs| - 1 {
      assert front[k] == cs[k];
      LastWriteWins(m, front, k);
    }
  }

  /** The write log: one keyed write per chunk, in order. */
  function WriteLog(cs: seq<Chunk>): (log: seq<(string, Chunk)>)
    requires Identified(cs)
    ensures |log| == |cs|
  {
    if cs == [] then [] else
      var last := cs[|cs| - 1];
      WriteLog(cs[..|cs| - 1]) + [(last.id.value, last)]
  }

  /** Write k of the log stores chunk k under its own id. */
  lemma {:induction false} WriteLogAt(cs: seq<Chunk>, k: nat)
    requires Identified(cs) && k < |cs|
    ensures WriteLog(cs)[k] == (cs[k].id.value, cs[k])
  {
    if k < |cs| - 1 {
      WriteLogAt(cs[..|cs| - 1], k);
    }
  }

  class Store {
    /** The chunks held, keyed by id. */
    var entries: map<string, Chunk>
    /** Every keyed write made to the store, in order. */
    ghost var writes: seq<(string, Chunk)>

    /** A store holding the given entries, with no writes made yet. */
    constructor (entries: map<string, Chunk>)
      ensures this.entries == entries && writes == []
    {
      this.entries := entries;
      writes := [];
    }

    /** db.get(include=[]): the ids of all stored entries, and nothing else. */
    method GetIds() returns (ids: set<string>)
      ensures ids == entries.Keys
    {
      ids := entries.Keys;
    }

    /** db.add_documents([chunk], ids=[id]): one keyed write. */
    method AddDocument(chunk: Chunk, id: string)
      modifies this
      ensures entries == old(entries)[id := chunk]
      ensures writes == old(writes) + [(id, chunk)]
    {
      entries := entries[id := chunk];
      writes := writes + [(id, chunk)];
    }
  }
}
