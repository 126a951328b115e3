/** Incremental indexing: stamp the chunks, read the stored ids once, keep the chunks
    whose id is not among them, and write each kept chunk under its id. */
module Indexer {
  import opened ChunkIds
  import opened VectorStore
  import Decimal

  /** The chunks of cs, in order, whose id is not in the snapshot existingIds. */
  function NewChunks(cs: seq<Chunk>, existingIds: set<string>): (r: seq<Chunk>)
    requires Identified(cs)
    ensures Identified(r) && |r| <= |cs|
  {
    if cs == [] then []
    else
      var last := cs[|cs| - 1];
      NewChunks(cs[..|cs| - 1], existingIds) + if last.id.value in existingIds then [] else [last]
  }

  /** A chunk is selected exactly when it is one of cs and its id is not in the snapshot. */
  lemma {:induction false} NewChunksMembers(cs: seq<Chunk>, existingIds: set<string>)
    requires Identified(cs)
    ensures forall c :: c in NewChunks(cs, existingIds) <==> c in cs && c.id.Some? && c.id.value !in existingIds
  {
    if cs != [] {
      var front := cs[..|cs| - 1];
      NewChunksMembers(front, existingIds);
      assert cs == front + [cs[|cs| - 1]];
    }
  }

  /** The multiset of a non-empty sequence is that of all but its last element plus that element. */
  lemma MultisetOfLast<T>(s: seq<T>)
    requires |s| > 0
    ensures multiset(s) == multiset(s[..|s| - 1]) + multiset([s[|s| - 1]])
  {
    assert s == s[..|s| - 1] + [s[|s| - 1]];
  }

  /** A sequence split at i joins back into itself. */
  lemma SplitJoins<T>(s: seq<T>, i: nat)
    requires i <= |s|
    ensures s[..i] + s[i..] == s
  {
  }

  /** Every copy of a chunk whose id is new is kept, even when another kept chunk has
      the same id; no copy of a chunk whose id is in the snapshot is. */
  lemma {:induction false} NewChunksKeepsEveryCopy(cs: seq<Chunk>, existingIds: set<string>, c: Chunk)
    requires Identified(cs) && c.id.Some?
    ensures multiset(NewChunks(cs, existingIds))[c] ==
            if c.id.value in existingIds then 0 else multiset(cs)[c]
  {
    if cs != [] {
      var last := cs[|cs| - 1];
      var front := cs[..|cs| - 1];
      var tail := if last.id.value in existingIds then [] else [last];
      var kept := NewChunks(front, existingIds);
      NewChunksKeepsEveryCopy(front, existingIds, c);
      assert NewChunks(cs, existingIds) == kept + tail;
      assert multiset(kept + tail) == multiset(kept) + multiset(tail);
      MultisetOfLast(cs);
      if c.id.value in existingIds {
        assert multiset(tail)[c] == 0;
      } else if last.id.value in existingIds {
        assert c != last;
      }
    }
  }

  /** Against an empty store every chunk is new. */
  lemma {:induction false} EmptySnapshotKeepsAll(cs: seq<Chunk>)
    requires Identified(cs)
    ensures NewChunks(cs, {}) == cs
  {
    if cs != [] {
      var front := cs[..|cs| - 1];
      EmptySnapshotKeepsAll(front);
      assert cs == front + [cs[|cs| - 1]];
    }
  }

  /** When every id is already stored, nothing is selected. */
  lemma {:induction false} NothingNewWhenAllStored(cs: seq<Chunk>, existingIds: set<string>)
    requires Identified(cs)
    requires IdSet(cs) <= existingIds
    ensures NewChunks(cs, existingIds) == []
  {
    if cs != [] {
      var front := cs[..|cs| - 1];
      var last := cs[|cs| - 1];
      assert last in cs;
      assert last.id.value in IdSet(cs);
      assert IdSet(front) <= IdSet(cs) by {
        forall id | id in IdSet(front) ensures id in IdSet(cs) {
          var c :| c in front && c.id.Some? && c.id.value == id;
          assert c in cs;
        }
      }
      NothingNewWhenAllStored(front, existingIds);
    }
  }

  /** Writing the new chunks leaves the store holding every id of the run. */
  lemma StoredAfterWrites(cs: seq<Chunk>, m: map<string, Chunk>)
    requires Identified(cs)
    ensures ApplyWrites(m, NewChunks(cs, m.Keys)).Keys == m.Keys + IdSet(cs)
  {
    var n := NewChunks(cs, m.Keys);
    NewChunksMembers(cs, m.Keys);
    assert IdSet(n) <= IdSet(cs);
    forall id | id in IdSet(cs) && id !in m.Keys
      ensures id in IdSet(n)
    {
      var c :| c in cs && c.id.Some? && c.id.value == id;
      assert c in n;
    }
  }

  /** Idempotence: once the new chunks are written, filtering the same chunks against
      the updated store selects nothing. */
  lemma RerunSelectsNothing(cs: seq<Chunk>, m: map<string, Chunk>)
    requires Identified(cs)
    ensures NewChunks(cs, ApplyWrites(m, NewChunks(cs, m.Keys)).Keys) == []
  {
    StoredAfterWrites(cs, m);
    NothingNewWhenAllStored(cs, ApplyWrites(m, NewChunks(cs, m.Keys)).Keys);
  }

  /** Idempotence of the whole run: stamping the same input again, or the chunks the
      first run stamped, and filtering against the store the first run left selects
      nothing. */
  lemma PipelineIdempotent(cs: seq<Chunk>, m: map<string, Chunk>)
    ensures Identified(AssignIds(cs)) && AssignIds(AssignIds(cs)) == AssignIds(cs)
    ensures NewChunks(AssignIds(cs), ApplyWrites(m, NewChunks(AssignIds(cs), m.Keys)).Keys) == []
  {
    AssignIdsOnlySetsIds(cs);
    AssignIdsIdempotent(cs);
    RerunSelectsNothing(AssignIds(cs), m);
  }

  /** The first i selected chunks carry only ids of the run. */
  lemma SelectedPrefixIds(cs: seq<Chunk>, existingIds: set<string>, i: nat)
    requires Identified(cs) && i <= |NewChunks(cs, existingIds)|
    ensures IdSet(NewChunks(cs, existingIds)[..i]) <= IdSet(cs)
  {
    var n := NewChunks(cs, existingIds);
    NewChunksMembers(cs, existingIds);
    PrefixMembers(n, i);
    IdSetMonotone(n[..i], cs);
  }

  /** Every element of a prefix is an element of the whole. */
  lemma PrefixMembers<T>(s: seq<T>, i: nat)
    requires i <= |s|
    ensures forall x :: x in s[..i] ==> x in s
  {
  }

  /** A run cut short after its first i writes and then run again leaves the same set
      of ids a full run would have left. */
  lemma ResumeAfterPartialRun(cs: seq<Chunk>, m: map<string, Chunk>, i: nat)
    requires Identified(cs)
    requires i <= |NewChunks(cs, m.Keys)|
    ensures var partial := ApplyWrites(m, NewChunks(cs, m.Keys)[..i]);
            ApplyWrites(partial, NewChunks(cs, partial.Keys)).Keys ==
            ApplyWrites(m, NewChunks(cs, m.Keys)).Keys
  {
    var n := NewChunks(cs, m.Keys);
    IdentifiedSlices(n, i);
    var done := n[..i];
    SelectedPrefixIds(cs, m.Keys, i);
    var partial := ApplyWrites(m, done);
    StoredAfterWrites(cs, partial);
    StoredAfterWrites(cs, m);
  }

  /** No two chunks of cs carry the same id. */
  predicate DistinctIds(cs: seq<Chunk>) {
    forall a, b :: 0 <= a < b < |cs| ==> cs[a].id != cs[b].id
  }

  /** Filtering against a union of two snapshots is filtering against one, then the other. */
  lemma {:induction false} NewChunksUnion(cs: seq<Chunk>, first: set<string>, second: set<string>)
    requires Identified(cs)
    ensures NewChunks(cs, first + second) == NewChunks(NewChunks(cs, first), second)
  {
    if cs != [] {
      var front := cs[..|cs| - 1];
      var last := cs[|cs| - 1];
      var kept := NewChunks(front, first);
      NewChunksUnion(front, first, second);
      var both := NewChunks(kept, second);
      assert NewChunks(cs, first + second) ==
             both + if last.id.value in first + second then [] else [last];
      if last.id.value in first {
        assert NewChunks(cs, first) == kept;
      } else {
        var once := kept + [last];
        assert NewChunks(cs, first) == once;
        assert once[..|once| - 1] == kept && once[|once| - 1] == last;
        assert NewChunks(once, second) == both + if last.id.value in second then [] else [last];
      }
    }
  }

  /** Filtering keeps chunks with distinct ids distinct. */
  lemma {:induction false} NewChunksDistinct(cs: seq<Chunk>, existingIds: set<string>)
    requires Identified(cs) && DistinctIds(cs)
    ensures DistinctIds(NewChunks(cs, existingIds))
  {
    if cs != [] {
      var front := cs[..|cs| - 1];
      var last := cs[|cs| - 1];
      var kept := NewChunks(front, existingIds);
      NewChunksDistinct(front, existingIds);
      NewChunksMembers(front, existingIds);
      forall c | c in kept
        ensures c.id != last.id
      {
        var a :| 0 <= a < |front| && front[a] == c;
        assert cs[a] == c;
      }
    }
  }

  /** Filtering chunks with distinct ids against the ids of their first i leaves the rest. */
  lemma {:induction false} DropsWrittenPrefix(n: seq<Chunk>, i: nat)
    requires Identified(n) && DistinctIds(n) && i <= |n|
    ensures NewChunks(n, IdSet(n[..i])) == n[i..]
  {
    if i == |n| {
      assert n[..i] == n;
      NothingNewWhenAllStored(n, IdSet(n));
    } else {
      var front := n[..|n| - 1];
      var last := n[|n| - 1];
      assert front[..i] == n[..i];
      DropsWrittenPrefix(front, i);
      assert n[i..] == front[i..] + [last];
    }
  }

  /** When the chunks of a run carry distinct ids, a run cut short after its first i
      writes and then run again leaves exactly the store a full run would have left. */
  lemma ResumeMatchesFullRun(cs: seq<Chunk>, m: map<string, Chunk>, i: nat)
    requires Identified(cs) && DistinctIds(cs)
    requires i <= |NewChunks(cs, m.Keys)|
    ensures var partial := ApplyWrites(m, NewChunks(cs, m.Keys)[..i]);
            ApplyWrites(partial, NewChunks(cs, partial.Keys)) ==
            ApplyWrites(m, NewChunks(cs, m.Keys))
  {
    var n := NewChunks(cs, m.Keys);
    IdentifiedSlices(n, i);
    var done := n[..i];
    var partial := ApplyWrites(m, done);
    NewChunksUnion(cs, m.Keys, IdSet(done));
    NewChunksDistinct(cs, m.Keys);
    DropsWrittenPrefix(n, i);
    assert NewChunks(cs, partial.Keys) == n[i..];
    SplitJoins(n, i);
    ApplyWritesAppend(m, done, n[i..]);
  }

  /** Without distinct ids a resumed run can end differently: chunks c0, c1, c2 with ids
      "x", "y", "x", cut short after the first write, leave c0 under "x" once resumed,
      where a full run leaves c2 there. */
  lemma ResumeCanKeepEarlierCopy(c0: Chunk, c1: Chunk, c2: Chunk)
    requires c0.id == Some("x") && c1.id == Some("y") && c2.id == Some("x")
    ensures var cs := [c0, c1, c2];
            var partial := ApplyWrites(map[], NewChunks(cs, {})[..1]);
            ApplyWrites(partial, NewChunks(cs, partial.Keys))["x"] == c0 &&
            ApplyWrites(map[], NewChunks(cs, {}))["x"] == c2
  {
    var cs := [c0, c1, c2];
    EmptySnapshotKeepsAll(cs);
    assert NewChunks(cs, {})[..1] == [c0];
    assert [c0][..0] == [];
    var partial := ApplyWrites(map[], [c0]);
    assert partial.Keys == {"x"} && partial["x"] == c0;
    assert cs[..2] == [c0, c1] && [c0, c1][..1] == [c0];
    assert NewChunks([c0], {"x"}) == [];
    assert NewChunks(cs, partial.Keys) == [c1];
    assert IdSet([c1]) == {"y"};
    ApplyWritesKeepsOthers(partial, [c1], "x");
    LastWriteWins(map[], cs, 2);
  }

  /** With ids "f:0:0" and "f:0:1" stored, three chunks of page 0 of "f" yield ids
      "f:0:0", "f:0:1", "f:0:2", and only the third is selected for writing. */
  lemma DiffExample(t0: string, t1: string, t2: string)
    ensures var cs := AssignIds([Chunk(Some("f"), Some("0"), t0, None),
                                 Chunk(Some("f"), Some("0"), t1, None),
                                 Chunk(Some("f"), Some("0"), t2, None)]);
            |cs| == 3 && Identified(cs) &&
            cs[0].id == Some("f:0:0") && cs[1].id == Some("f:0:1") && cs[2].id == Some("f:0:2") &&
            NewChunks(cs, {"f:0:0", "f:0:1"}) == [cs[2]]
  {
    var raw := [Chunk(Some("f"), Some("0"), t0, None),
                Chunk(Some("f"), Some("0"), t1, None),
                Chunk(Some("f"), Some("0"), t2, None)];
    var cs := AssignIds(raw);
    AssignIdsOnlySetsIds(raw);
    assert RunIndex(PageKeys(raw), 2) == 2;
    assert PageKey(raw[0]) == "f:0" && PageKey(raw[1]) == "f:0" && PageKey(raw[2]) == "f:0";
    assert Decimal.NatToString(0) == "0" && Decimal.NatToString(1) == "1" && Decimal.NatToString(2) == "2";
    assert ChunkId("f:0", 0) == "f:0:0" && ChunkId("f:0", 1) == "f:0:1" && ChunkId("f:0", 2) == "f:0:2";
    assert cs[0].id == Some("f:0:0");
    assert cs[1].id == Some("f:0:1");
    assert cs[2].id == Some("f:0:2");
    var existingIds := {"f:0:0", "f:0:1"};
    assert cs[..1][..0] == [] && cs[..1][0] == cs[0];
    assert NewChunks(cs[..1], existingIds) == [];
    assert cs[..2][..1] == cs[..1] && cs[..2][1] == cs[1];
    assert NewChunks(cs[..2], existingIds) == [];
    assert cs[..2] == cs[..|cs| - 1];
    assert "f:0:2" !in existingIds;
  }

  /** Writing four chunks whose ids are pairwise distinct except that the last repeats
      the first leaves three entries, the last chunk in place of the first. */
  lemma WritesWithRepeatedFirstId(cs: seq<Chunk>)
    requires |cs| == 4 && Identified(cs)
    requires cs[3].id == cs[0].id
    requires cs[0].id != cs[1].id && cs[0].id != cs[2].id && cs[1].id != cs[2].id
    ensures |ApplyWrites(map[], cs).Keys| == 3
    ensures ApplyWrites(map[], cs)[cs[0].id.value] == cs[3]
  {
    assert cs[0] in cs && cs[1] in cs && cs[2] in cs && cs[3] in cs;
    var ids := {cs[0].id.value, cs[1].id.value, cs[2].id.value};
    forall id | id in IdSet(cs)
      ensures id in ids
    {
      var c :| c in cs && c.id.Some? && c.id.value == id;
      var k :| 0 <= k < 4 && cs[k] == c;
    }
    assert IdSet(cs) == ids;
    var x, y, z := cs[0].id.value, cs[1].id.value, cs[2].id.value;
    assert x != y && x != z && y != z;
    assert |{x, y, z}| == 3;
    var written := ApplyWrites(map[], cs);
    assert written.Keys == ids;
    LastWriteWins(map[], cs, 3);
  }

  /** Keys [A,A,B,A] written to an empty store: all four chunks are selected and
      written, the first and the last under the same id, so the store ends with three
      entries and the last chunk has replaced the first. */
  lemma DuplicateIdsBothWritten(raw: seq<Chunk>)
    requires |raw| == 4
    requires PageKey(raw[0]) == PageKey(raw[1]) && PageKey(raw[0]) == PageKey(raw[3])
    requires PageKey(raw[1]) != PageKey(raw[2])
    ensures var cs := AssignIds(raw);
            |cs| == 4 && Identified(cs) &&
            NewChunks(cs, {}) == cs &&
            WriteLog(cs)[0].0 == WriteLog(cs)[3].0 &&
            |ApplyWrites(map[], cs).Keys| == 3 &&
            ApplyWrites(map[], cs)[cs[0].id.value] == cs[3]
  {
    var cs := AssignIds(raw);
    AssignIdsOnlySetsIds(raw);
    EmptySnapshotKeepsAll(cs);
    NonContiguousRepeatRestarts(raw);
    var a := PageKey(raw[0]);
    var b := PageKey(raw[2]);
    assert cs[1].id != cs[0].id by {
      if cs[1].id == cs[0].id { ChunkIdInjective(a, 1, a, 0); }
    }
    assert cs[2].id != cs[0].id by {
      if cs[2].id == cs[0].id { ChunkIdInjective(b, 0, a, 0); }
    }
    assert cs[2].id != cs[1].id by {
      if cs[2].id == cs[1].id { ChunkIdInjective(b, 0, a, 1); }
    }
    WritesWithRepeatedFirstId(cs);
    WriteLogAt(cs, 0);
    WriteLogAt(cs, 3);
  }

  /** The filter loop of add_to_chroma, against a snapshot taken before it. */
  method SelectNew(chunksWithIds: seq<Chunk>, existingIds: set<string>) returns (newChunks: seq<Chunk>)
    requires Identified(chunksWithIds)
    ensures newChunks == NewChunks(chunksWithIds, existingIds)
  {
    newChunks := [];
    for i := 0 to |chunksWithIds|
      invariant newChunks == NewChunks(chunksWithIds[..i], existingIds)
    {
      var chunk := chunksWithIds[i];
      assert chunksWithIds[..i + 1][..i] == chunksWithIds[..i];
      if chunk.id.value !in existingIds {
        newChunks := newChunks + [chunk];
      }
    }
    assert chunksWithIds[..|chunksWithIds|] == chunksWithIds;
  }

  /** The write loop of add_to_chroma: one keyed add_documents call per new chunk. */
  method WriteChunks(db: Store, newChunks: seq<Chunk>)
    requires Identified(newChunks)
    modifies db
    ensures db.entries == ApplyWrites(old(db.entries), newChunks)
    ensures db.writes == old(db.writes) + WriteLog(newChunks)
  {
    for i := 0 to |newChunks|
      invariant Identified(newChunks[..i])
      invariant db.entries == ApplyWrites(old(db.entries), newChunks[..i])
      invariant db.writes == old(db.writes) + WriteLog(newChunks[..i])
    {
      var chunk := newChunks[i];
      assert chunk in newChunks;
      assert newChunks[..i + 1] == newChunks[..i] + [chunk];
      assert newChunks[..i + 1][..i] == newChunks[..i];
      db.AddDocument(chunk, chunk.id.value);
    }
    assert newChunks[..|newChunks|] == newChunks;
  }

  /** add_to_chroma: stamp the chunks in place, snapshot the stored ids once, keep the
      chunks whose id is not in the snapshot, and write each of them under its id.
      Afterwards the store holds every id of the run. */
  method AddToChroma(db: Store, chunks: array<Chunk>)
    modifies db, chunks
    ensures chunks[..] == AssignIds(old(chunks[..]))
    ensures Identified(chunks[..])
    ensures db.entries == ApplyWrites(old(db.entries), NewChunks(chunks[..], old(db.entries.Keys)))
    ensures db.writes == old(db.writes) + WriteLog(NewChunks(chunks[..], old(db.entries.Keys)))
    ensures NewChunks(chunks[..], old(db.entries.Keys)) == [] ==> db.entries == old(db.entries) && db.writes == old(db.writes)
    ensures NewChunks(chunks[..], db.entries.Keys) == []
  {
    CalculateChunkIds(chunks);
    var chunksWithIds := chunks[..];
    AssignIdsOnlySetsIds(old(chunks[..]));
    var existingIds := db.GetIds();
    var newChunks := SelectNew(chunksWithIds, existingIds);
    if |newChunks| > 0 {
      WriteChunks(db, newChunks);
    }
    RerunSelectsNothing(chunksWithIds, old(db.entries));
  }

  /** Running add_to_chroma twice over the same chunk list writes nothing the second time. */
  method RerunAddsNothing(db: Store, chunks: array<Chunk>)
    modifies db, chunks
    ensures chunks[..] == AssignIds(old(chunks[..]))
    ensures Identified(chunks[..])
    ensures db.entries == ApplyWrites(old(db.entries), NewChunks(chunks[..], old(db.entries.Keys)))
    ensures db.writes == old(db.writes) + WriteLog(NewChunks(chunks[..], old(db.entries.Keys)))
  {
    AddToChroma(db, chunks);
    ghost var afterFirst := db.writes;
    ghost var entriesAfterFirst := db.entries;
    AssignIdsIdempotent(old(chunks[..]));
    AddToChroma(db, chunks);
    assert db.writes == afterFirst;
    assert db.entries == entriesAfterFirst;
  }
}
