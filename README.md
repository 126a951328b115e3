# Chunk identification and incremental indexing of the RAG pipeline

This project models the indexing step of the `rag_pipeline` repository (`create_db.py`), written in Dafny.

- **Chunk ids.** `calculate_chunk_ids` stamps every chunk with an id `source:page:index`. It makes a single left-to-right pass. Its only state is two values: the previous chunk's page key `source:page`, and a running index. The index goes up by one while the page key equals the previous chunk's. Otherwise it restarts at 0.
- **Adding to the store.**
  - `add_to_chroma` stamps the chunks, then reads the set of ids already in the Chroma collection once.
  - It keeps the chunks whose id is not in that set, in order.
  - If any chunk is kept, it writes each one with its own `add_documents` call under its id.

The model has four modules:

- `Decimal` (`decimal.dfy`) formats the index the way Python's `str(int)` does, and proves that reading the text back gives the number.
- `ChunkIds` (`chunk_ids.dfy`) holds the chunk value and the id format. It defines the specification of the pass:
  - `RunIndex` is a positional reference definition of the index.
  - `AssignIds` is the stamped list.
  - It also holds the in-place method `CalculateChunkIds` over an `array`, proved against `AssignIds`, and the lemmas about ids.
- `VectorStore` (`vector_store.dfy`) models the collection.
  - It is a class `Store` whose `entries` map holds the chunks by id. A ghost `writes` log records every keyed write.
  - A write under an id that is already present replaces the entry, as Chroma's upsert does.
  - `ApplyWrites` and `WriteLog` are the specification functions of a sequence of writes.
- `Indexer` (`indexer.dfy`) holds the filter `NewChunks` and its loop `SelectNew`, the write loop `WriteChunks`, and the whole `AddToChroma` method. It also holds the idempotence and resumption lemmas.

Three behaviours of the code that the model keeps:

- **Ids are not unique within a run.** The comments at create_db.py:57 and create_db.py:89 call the ids unique. The code only compares a chunk with the one just before it (create_db.py:100). So a page key that comes back after another one restarts at 0 and repeats an earlier id.
  - `NonContiguousRepeatRestarts` and `DuplicateIdsBothWritten` state this behaviour.
  - Uniqueness is proved where it does hold:
    - inside one contiguous run (`DistinctWithinRun`);
    - for a whole run when no page key comes back (`DistinctWhenPagesContiguous`).
- **Missing metadata.** `dict.get` returns None for a missing `source` or `page` entry (create_db.py:94-95), and the f-string renders it as the text `None`. `Render` models this.
- **Writes under an existing id.** The model gives the store's `add_documents` the behaviour the Chroma wrapper called at create_db.py:80 has: replace on an existing id (upsert). The later chunk replaces the earlier one (`LastWriteWins`).

## Model

| member | source | states |
|---|---|---|
| `Decimal.NatToString` | create_db.py:106 | the index text has at least one digit, is all digits, and starts with '0' exactly when the index is 0 (no leading zeros) |
| `Decimal.DigitsValueOfNatToString` | create_db.py:106 | reading the decimal text of an index back gives the index |
| `ChunkIds.Render` | create_db.py:94-96 | a metadata value that `dict.get` returned as None is rendered as the text `None`, and any other value as itself |
| `ChunkIds.PageKey` | create_db.py:96 | the page key is the rendered source, a ':' and the rendered page |
| `ChunkIds.ChunkId` | create_db.py:106 | the id is the page key, a ':' and the index in decimal; `ParseChunkIdRoundTrip` proves it can be split back |
| `ChunkIds.LastColon` | create_db.py:106 | the position returned holds ':' and no ':' follows it; None only when the text has no ':' |
| `ChunkIds.ParseChunkIdRoundTrip` | create_db.py:96-106 | an id `key:index` splits back (at its last ':') into exactly that page key and index, even when the key holds ':' itself |
| `ChunkIds.ChunkIdInjective` | create_db.py:96-106 | two ids are equal only if their page keys and indices are |
| `ChunkIds.RunIndex` | create_db.py:100-103 | the index of position i is never more than i |
| `ChunkIds.RunIndexIsRunLength` | create_db.py:100-103 | the index of position i is how far back the run of equal keys ending at i reaches: all keys in that stretch are equal, and the key before it differs |
| `ChunkIds.RunIndexAlongRun` | create_db.py:100-101 | along one contiguous run of a key the index goes up by exactly one per position |
| `ChunkIds.RunIndexSamePrefix` | create_db.py:93-107 | the index of a position depends only on the keys up to that position |
| `ChunkIds.AssignIds` | create_db.py:86-112 | the reference result of the whole pass: the same number of chunks, with chunk k stamped with its page key and the run index of position k |
| `ChunkIds.AssignIdsOnlySetsIds` | create_db.py:93-112 | the pass keeps the length and the order, and changes nothing of a chunk but its id; every chunk gets an id |
| `ChunkIds.IndexRule` | create_db.py:94-107 | each id is the chunk's own `source:page`, then ':' and an index. The index is 0 on the first chunk, the previous chunk's index + 1 when the page key equals the previous chunk's, and 0 whenever it differs |
| `ChunkIds.SameIdIff` | create_db.py:96-106 | two chunks get the same id if and only if they have the same page key and the same run index |
| `ChunkIds.DistinctWithinRun` | create_db.py:100-101 | chunks within one contiguous run of a page key get pairwise distinct ids |
| `ChunkIds.DistinctWhenPagesContiguous` | create_db.py:93-107 | when no page key comes back after another key, all ids of the run are pairwise distinct |
| `ChunkIds.ResetOnPageChange` | create_db.py:100-106 | page keys [A,A,A,B,B] get indices [0,1,2,0,1] |
| `ChunkIds.NonContiguousRepeatRestarts` | create_db.py:100-106 | page keys [A,A,B,A] get indices [0,1,0,0], and the fourth chunk's id equals the first's |
| `ChunkIds.IdsDependOnlyOnSourceAndPage` | create_db.py:94-106 | two lists with the same (source, page) pairs get the same ids, whatever their texts and earlier ids |
| `ChunkIds.AssignIdsIdempotent` | create_db.py:86-112 | stamping an already stamped list changes nothing |
| `ChunkIds.CalculateChunkIds` | create_db.py:86-112 | the array after the pass is exactly the reference result `AssignIds` of the array before it |
| `VectorStore.ApplyWrites` | create_db.py:79-80 | after a sequence of keyed writes, the store's ids are the old ids plus the ids written |
| `VectorStore.ApplyWritesKeepsOthers` | create_db.py:79-80 | an entry whose id is not written keeps its old chunk |
| `VectorStore.LastWriteWins` | create_db.py:79-80 | a chunk that no later write overwrites is what the store holds under its id |
| `VectorStore.WriteLog` | create_db.py:79-80 | a sequence of chunks makes exactly one write per chunk |
| `VectorStore.WriteLogAt` | create_db.py:79-80 | write k stores chunk k under chunk k's own id |
| `VectorStore.Store.constructor` | create_db.py:53-55 | a store opened on given entries holds them, with no writes made |
| `VectorStore.Store.GetIds` | create_db.py:61-62 | the snapshot is exactly the set of stored ids |
| `VectorStore.Store.AddDocument` | create_db.py:80 | one write: the entry under the id becomes the chunk, whether or not the id was present, and the write is logged |
| `Indexer.NewChunks` | create_db.py:66-69 | the selected chunks all carry ids and are no more than the input |
| `Indexer.NewChunksMembers` | create_db.py:66-69 | a chunk is selected if and only if it is one of the input chunks and its id is not in the snapshot |
| `Indexer.NewChunksKeepsEveryCopy` | create_db.py:66-69 | every copy of a chunk whose id is new is kept, even alongside another chunk with the same id; no copy of a chunk whose id is in the snapshot is kept |
| `Indexer.EmptySnapshotKeepsAll` | create_db.py:66-69 | against an empty store every chunk is selected, in order |
| `Indexer.NothingNewWhenAllStored` | create_db.py:66-69 | when every id is already stored nothing is selected |
| `Indexer.StoredAfterWrites` | create_db.py:66-80 | writing the selected chunks leaves the store holding the old ids plus every id of the run |
| `Indexer.RerunSelectsNothing` | create_db.py:61-80 | filtering the same chunks against the store a run left selects nothing |
| `Indexer.PipelineIdempotent` | create_db.py:58-80 | stamping again gives the same chunks, and a second run over them selects nothing |
| `Indexer.ResumeAfterPartialRun` | create_db.py:61-80 | a run cut short after any number of its writes and then run again leaves the store holding the same set of ids a full run would have left |
| `Indexer.NewChunksUnion` | create_db.py:66-69 | filtering against the union of two snapshots is filtering against the first, then the second |
| `Indexer.NewChunksDistinct` | create_db.py:66-69 | filtering chunks whose ids are distinct leaves chunks whose ids are distinct |
| `Indexer.DropsWrittenPrefix` | create_db.py:66-69 | filtering chunks with distinct ids against the ids of their first i chunks leaves exactly the rest, in order |
| `Indexer.ResumeMatchesFullRun` | create_db.py:61-80 | when the ids of a run are distinct, a run cut short after any number of its writes and then run again leaves exactly the entries a full run would have left |
| `Indexer.ResumeCanKeepEarlierCopy` | create_db.py:61-80 | with ids "x", "y", "x", a run cut short after its first write and then run again keeps the first chunk under "x", where a full run leaves the third |
| `Indexer.DiffExample` | create_db.py:58-69 | with "f:0:0" and "f:0:1" stored, three chunks of page 0 of "f" get the ids "f:0:0", "f:0:1" and "f:0:2", in that order, and only the third is selected |
| `Indexer.WritesWithRepeatedFirstId` | create_db.py:79-80 | four writes whose last repeats the first id leave three entries, with the last chunk under the repeated id |
| `Indexer.DuplicateIdsBothWritten` | create_db.py:58-80 | for page keys [A,A,B,A] against an empty store all four chunks are selected and written, the first and last under the same id; three entries remain, the last chunk in place of the first |
| `Indexer.SelectNew` | create_db.py:66-69 | the filter loop returns exactly `NewChunks` of its input and the snapshot |
| `Indexer.WriteChunks` | create_db.py:79-80 | the write loop leaves the store as `ApplyWrites` says and logs exactly one write per chunk, in order |
| `Indexer.AddToChroma` | create_db.py:51-83 | the chunks end stamped as `AssignIds` of what they were; the store ends as the writes of the chunks that were new against the snapshot; with no new chunk nothing is written; afterwards no chunk of the run is new |
| `Indexer.RerunAddsNothing` | create_db.py:51-83 | running add_to_chroma twice over the same chunk list leaves the chunks stamped as `AssignIds` of what they were, and the store's entries and write log exactly as after the first run |

## Left out

- The embedding computation and the embedding function given to the collection (create_db.py:53-55). Embeddings are not part of the stored entry here: an entry is the chunk itself.
- `db.persist()` (create_db.py:81) and the on-disk collection directory, because the model has no file system.
- The progress output: `print`, `st.toast`, `tqdm`, and the `streamlit_flag` parameter that chooses between them. None of them affects which chunks are written.
- `new_chunk_ids` (create_db.py:77) is computed and never used, so it is not modelled.
- The command-line handling in `main`, `load_documents`, `split_documents` and `clear_database`. They are I/O and library calls. The model starts from the chunk list the splitter returns.
- The `pysqlite3` module swap at import time (create_db.py:8-10), which is environment setup.
- Failures of the store or of the embedding backend. The source does not handle them. The model instead proves what the next run does after a run cut short after any prefix of its writes:
  - it restores the same set of ids (`ResumeAfterPartialRun`);
  - when the ids of the run are distinct, it restores exactly the same entries (`ResumeMatchesFullRun`);
  - when an id repeats, the chunk stored under it can differ from what a full run leaves, because the next run skips every copy of an id already written (`ResumeCanKeepEarlierCopy`).
- Concurrent indexing runs against one store, because the source is single-threaded.
- Chunk objects are modelled as values in an array. The source's aliasing of the same document objects between `chunks` and the returned list is therefore not modelled.
- `calculate_chunk_ids` returns the list it was given. The model's method updates the array in place, which is where the caller reads the stamped chunks.
- The page number is taken as its already-rendered text, so how Python formats an `int` page number is not modelled. The index's formatting is modelled.
- The other files of the repository (`rag_api.py`, `app.py`, `test.py`, `embeddings_compare.py`, `load_model.py`, `embedding_function.py`) are not part of this model.
