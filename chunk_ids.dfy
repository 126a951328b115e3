/** Chunk identification: the single left-to-right pass that stamps every chunk
    with "source:page:index", where index counts the chunks since the page key
    last changed from one chunk to the next. */
module ChunkIds {
  import opened Decimal

  datatype Option<T> = None | Some(value: T)

  /** A chunk as the splitter hands it over: the "source" and "page" entries of its
      metadata (None when the entry is absent), its text, and the "id" entry. */
  datatype Chunk = Chunk(source: Option<string>, page: Option<string>, text: string, id: Option<string>)

  /** Every chunk carries an id, as every chunk does once the pass has run. */
  predicate Identified(cs: seq<Chunk>) {
    forall k :: 0 <= k < |cs| ==> cs[k].id.Some?
  }

  /** Both parts of a list of chunks with ids, split at i, carry ids. */
  lemma IdentifiedSlices(cs: seq<Chunk>, i: nat)
    requires Identified(cs) && i <= |cs|
    ensures Identified(cs[..i]) && Identified(cs[i..])
  {
    assert forall k :: 0 <= k < |cs| - i ==> cs[i..][k] == cs[i + k];
  }

  /** How an f-string renders a metadata value that dict.get may have returned as None. */
  function Render(v: Option<string>): string {
    match v
    case None => "None"
    case Some(s) => s
  }

  /** The page key "source:page" of a chunk. */
  function PageKey(c: Chunk): string {
    Render(c.source) + ":" + Render(c.page)
  }

  /** The page keys of the chunks, in order. */
  function PageKeys(cs: seq<Chunk>): (keys: seq<string>)
    ensures |keys| == |cs|
    ensures forall k :: 0 <= k < |cs| ==> keys[k] == PageKey(cs[k])
  {
    seq(|cs|, k requires 0 <= k < |cs| => PageKey(cs[k]))
  }

  /** The id of the chunk at position index of a run of page key pageKey. */
  function ChunkId(pageKey: string, index: nat): string {
    pageKey + ":" + NatToString(index)
  }

  /** The position of the last ':' in s, if there is one. */
  function LastColon(s: string): (r: Option<nat>)
    ensures r.Some? ==> r.value < |s| && s[r.value] == ':' && forall k :: r.value < k < |s| ==> s[k] != ':'
    ensures r.None? ==> forall k :: 0 <= k < |s| ==> s[k] != ':'
  {
    if s == [] then None
    else if s[|s| - 1] == ':' then Some(|s| - 1)
    else LastColon(s[..|s| - 1])
  }

  /** Splits an id into its page key and its index: the index is the digits after the
      last ':', and the page key (which may itself hold ':') is everything before it. */
  function ParseChunkId(id: string): Option<(string, nat)> {
    match LastColon(id)
    case None => None
    case Some(p) =>
      var digits := id[p + 1..];
      if |digits| > 0 && AllDigits(digits) then Some((id[..p], DigitsValue(digits))) else None
  }

  /** Every id can be split back into the page key and the index it was made from. */
  lemma {:induction false} ParseChunkIdRoundTrip(pageKey: string, index: nat)
    ensures ParseChunkId(ChunkId(pageKey, index)) == Some((pageKey, index))
  {
    var id := ChunkId(pageKey, index);
    var digits := NatToString(index);
    var p := |pageKey|;
    assert id[p] == ':';
    assert forall k :: p < k < |id| ==> id[k] == digits[k - p - 1];
    assert LastColon(id) == Some(p);
    assert id[..p] == pageKey;
    assert id[p + 1..] == digits;
    DigitsValueOfNatToString(index);
  }

  /** Two ids are equal only when page key and index both are. */
  lemma ChunkIdInjective(k1: string, i1: nat, k2: string, i2: nat)
    requires ChunkId(k1, i1) == ChunkId(k2, i2)
    ensures k1 == k2 && i1 == i2
  {
    ParseChunkIdRoundTrip(k1, i1);
    ParseChunkIdRoundTrip(k2, i2);
  }

  /** Reference definition of the index of position i of a key sequence: 0 at the first
      position and wherever the key differs from the one just before it, one more than
      the index of position i - 1 otherwise. */
  function RunIndex<K(==)>(keys: seq<K>, i: nat): (r: nat)
    requires i < |keys|
    ensures r <= i
    decreases i
  {
    if i == 0 || keys[i] != keys[i - 1] then 0 else RunIndex(keys, i - 1) + 1
  }

  /** The index of position i is how far back the run of equal keys ending at i
      reaches: all of keys[i - r..i] equal keys[i], and the key before them, if any,
      does not. */
  lemma {:induction false} RunIndexIsRunLength<K>(keys: seq<K>, i: nat)
    requires i < |keys|
    ensures var r := RunIndex(keys, i);
            (forall k :: i - r <= k <= i ==> keys[k] == keys[i]) &&
            (r == i || keys[i - r - 1] != keys[i])
    decreases i
  {
    if i > 0 && keys[i] == keys[i - 1] {
      RunIndexIsRunLength(keys, i - 1);
    }
  }

  /** Along one contiguous run of a key the index climbs by one per position. */
  lemma {:induction false} RunIndexAlongRun<K>(keys: seq<K>, i: nat, j: nat)
    requires i <= j < |keys|
    requires forall k :: i <= k <= j ==> keys[k] == keys[i]
    ensures RunIndex(keys, j) == RunIndex(keys, i) + (j - i)
    decreases j
  {
    if i < j {
      RunIndexAlongRun(keys, i, j - 1);
    }
  }

  /** The index of position i depends on the keys up to i alone. */
  lemma {:induction false} RunIndexSamePrefix<K>(keys: seq<K>, other: seq<K>, i: nat)
    requires i < |keys| && i < |other|
    requires forall k :: 0 <= k <= i ==> keys[k] == other[k]
    ensures RunIndex(keys, i) == RunIndex(other, i)
    decreases i
  {
    if i > 0 {
      RunIndexSamePrefix(keys, other, i - 1);
    }
  }

  /** Chunk k once stamped: its id is its page key, ':' and the index of position k. */
  function StampedAt(cs: seq<Chunk>, k: nat): Chunk
    requires k < |cs|
  {
    cs[k].(id := Some(ChunkId(PageKey(cs[k]), RunIndex(PageKeys(cs), k))))
  }

  /** The chunks the pass produces: the same chunks in the same order, each stamped. */
  function AssignIds(cs: seq<Chunk>): (r: seq<Chunk>)
    ensures |r| == |cs|
    ensures forall k :: 0 <= k < |cs| ==> r[k] == StampedAt(cs, k)
  {
    seq(|cs|, k requires 0 <= k < |cs| => StampedAt(cs, k))
  }

  /** The pass changes nothing but the id of each chunk, and gives every chunk one. */
  lemma AssignIdsOnlySetsIds(cs: seq<Chunk>)
    ensures |AssignIds(cs)| == |cs| && Identified(AssignIds(cs))
    ensures forall k :: 0 <= k < |cs| ==>
              AssignIds(cs)[k] == cs[k].(id := AssignIds(cs)[k].id)
  {
  }

  /** The page key and index a chunk's id splits into, if it has an id of that shape. */
  function IdParts(c: Chunk): Option<(string, nat)> {
    if c.id.Some? then ParseChunkId(c.id.value) else None
  }

  /** Each id is the chunk's own page key, a ':' and an index that is 0 on the first
      chunk, one more than the previous chunk's while the page key stays the same,
      and 0 again whenever it differs from the previous chunk's. */
  lemma IndexRule(cs: seq<Chunk>, k: nat)
    requires k < |cs|
    ensures |AssignIds(cs)| == |cs|
    ensures IdParts(AssignIds(cs)[k]).Some? && IdParts(AssignIds(cs)[k]).value.0 == PageKey(cs[k])
    ensures k == 0 ==> IdParts(AssignIds(cs)[k]).value.1 == 0
    ensures k > 0 ==> IdParts(AssignIds(cs)[k - 1]).Some? &&
                      IdParts(AssignIds(cs)[k]).value.1 ==
                        if PageKey(cs[k]) == PageKey(cs[k - 1])
                        then IdParts(AssignIds(cs)[k - 1]).value.1 + 1
                        else 0
  {
    var keys := PageKeys(cs);
    var ids := AssignIds(cs);
    assert ids[k] == StampedAt(cs, k) && keys[k] == PageKey(cs[k]);
    ParseChunkIdRoundTrip(keys[k], RunIndex(keys, k));
    assert IdParts(AssignIds(cs)[k]) == Some((keys[k], RunIndex(keys, k)));
    if k > 0 {
      assert ids[k - 1] == StampedAt(cs, k - 1) && keys[k - 1] == PageKey(cs[k - 1]);
      ParseChunkIdRoundTrip(keys[k - 1], RunIndex(keys, k - 1));
      assert IdParts(AssignIds(cs)[k - 1]) == Some((keys[k - 1], RunIndex(keys, k - 1)));
    }
  }

  /** Two chunks get the same id exactly when they share a page key and an index. */
  lemma SameIdIff(cs: seq<Chunk>, i: nat, j: nat)
    requires i < |cs| && j < |cs|
    ensures |AssignIds(cs)| == |cs|
    ensures AssignIds(cs)[i].id == AssignIds(cs)[j].id <==>
            PageKey(cs[i]) == PageKey(cs[j]) && RunIndex(PageKeys(cs), i) == RunIndex(PageKeys(cs), j)
  {
    var keys := PageKeys(cs);
    if AssignIds(cs)[i].id == AssignIds(cs)[j].id {
      ChunkIdInjective(keys[i], RunIndex(keys, i), keys[j], RunIndex(keys, j));
    }
  }

  /** Chunks of one contiguous run of a page key get pairwise distinct ids. */
  lemma DistinctWithinRun(cs: seq<Chunk>, i: nat, j: nat)
    requires i < j < |cs|
    requires forall k :: i <= k <= j ==> PageKey(cs[k]) == PageKey(cs[i])
    ensures |AssignIds(cs)| == |cs|
    ensures AssignIds(cs)[i].id != AssignIds(cs)[j].id
  {
    RunIndexAlongRun(PageKeys(cs), i, j);
    SameIdIff(cs, i, j);
  }

  /** Each page key occupies one contiguous block: no key comes back after another. */
  predicate PagesContiguous(cs: seq<Chunk>) {
    forall i, j :: 0 <= i < j < |cs| && PageKey(cs[i]) == PageKey(cs[j]) ==>
      forall k :: i <= k <= j ==> PageKey(cs[k]) == PageKey(cs[i])
  }

  /** When no page key comes back after another, all ids of the run are distinct. */
  lemma DistinctWhenPagesContiguous(cs: seq<Chunk>)
    requires PagesContiguous(cs)
    ensures |AssignIds(cs)| == |cs|
    ensures forall i, j :: 0 <= i < j < |cs| ==> AssignIds(cs)[i].id != AssignIds(cs)[j].id
  {
    forall i, j | 0 <= i < j < |cs|
      ensures AssignIds(cs)[i].id != AssignIds(cs)[j].id
    {
      if PageKey(cs[i]) == PageKey(cs[j]) {
        DistinctWithinRun(cs, i, j);
      } else {
        SameIdIff(cs, i, j);
      }
    }
  }

  /** Keys [A,A,A,B,B] give indices [0,1,2,0,1]. */
  lemma ResetOnPageChange(cs: seq<Chunk>)
    requires |cs| == 5
    requires PageKey(cs[0]) == PageKey(cs[1]) && PageKey(cs[1]) == PageKey(cs[2])
    requires PageKey(cs[2]) != PageKey(cs[3]) && PageKey(cs[3]) == PageKey(cs[4])
    ensures |AssignIds(cs)| == 5
    ensures forall k :: 0 <= k < 5 ==>
              AssignIds(cs)[k].id == Some(ChunkId(PageKey(cs[k]), [0, 1, 2, 0, 1][k]))
  {
    var keys := PageKeys(cs);
    assert RunIndex(keys, 0) == 0;
    assert RunIndex(keys, 1) == 1;
    assert RunIndex(keys, 2) == 2;
    assert RunIndex(keys, 3) == 0;
    assert RunIndex(keys, 4) == 1;
  }

  /** Keys [A,A,B,A] give indices [0,1,0,0]: the comparison is only with the chunk just
      before, so the second run of A restarts at 0 and repeats the first chunk's id. */
  lemma NonContiguousRepeatRestarts(cs: seq<Chunk>)
    requires |cs| == 4
    requires PageKey(cs[0]) == PageKey(cs[1]) && PageKey(cs[0]) == PageKey(cs[3])
    requires PageKey(cs[1]) != PageKey(cs[2])
    ensures |AssignIds(cs)| == 4
    ensures forall k :: 0 <= k < 4 ==>
              AssignIds(cs)[k].id == Some(ChunkId(PageKey(cs[k]), [0, 1, 0, 0][k]))
    ensures AssignIds(cs)[3].id == AssignIds(cs)[0].id
  {
    var keys := PageKeys(cs);
    assert RunIndex(keys, 0) == 0;
    assert RunIndex(keys, 1) == 1;
    assert RunIndex(keys, 2) == 0;
    assert RunIndex(keys, 3) == 0;
  }

  /** The ids depend on the sequence of (source, page) pairs alone: not on the text,
      not on any id the chunks carried before. */
  lemma IdsDependOnlyOnSourceAndPage(cs: seq<Chunk>, ds: seq<Chunk>)
    requires |cs| == |ds|
    requires forall k :: 0 <= k < |cs| ==> cs[k].source == ds[k].source && cs[k].page == ds[k].page
    ensures |AssignIds(cs)| == |AssignIds(ds)| == |cs|
    ensures forall k :: 0 <= k < |cs| ==> AssignIds(cs)[k].id == AssignIds(ds)[k].id
  {
    var keys, other := PageKeys(cs), PageKeys(ds);
    forall k | 0 <= k < |cs|
      ensures AssignIds(cs)[k].id == AssignIds(ds)[k].id
    {
      RunIndexSamePrefix(keys, other, k);
    }
  }

  /** Running the pass again over chunks it has already stamped changes nothing. */
  lemma AssignIdsIdempotent(cs: seq<Chunk>)
    ensures AssignIds(AssignIds(cs)) == AssignIds(cs)
  {
    var r := AssignIds(cs);
    AssignIdsOnlySetsIds(cs);
    AssignIdsOnlySetsIds(r);
    IdsDependOnlyOnSourceAndPage(cs, r);
  }

  /** calculate_chunk_ids: stamps every chunk of the list in place, keeping as its only
      state the previous chunk's page key and the current index. */
  method CalculateChunkIds(chunks: array<Chunk>)
    modifies chunks
    ensures chunks[..] == AssignIds(old(chunks[..]))
  {
    ghost var original := chunks[..];
    ghost var keys := PageKeys(original);
    var lastPageId: Option<string> := None;
    var currentChunkIndex: nat := 0;
    for i := 0 to chunks.Length
      invariant forall k :: i <= k < chunks.Length ==> chunks[k] == original[k]
      invariant forall k :: 0 <= k < i ==> chunks[k] == StampedAt(original, k)
      invariant lastPageId == if i == 0 then None else Some(keys[i - 1])
      invariant i > 0 ==> currentChunkIndex == RunIndex(keys, i - 1)
    {
      var chunk := chunks[i];
      var currentPageId := PageKey(chunk);
      assert currentPageId == keys[i];
      if Some(currentPageId) == lastPageId {
        currentChunkIndex := currentChunkIndex + 1;
      } else {
        currentChunkIndex := 0;
      }
      assert currentChunkIndex == RunIndex(keys, i);
      var chunkId := ChunkId(currentPageId, currentChunkIndex);
      lastPageId := Some(currentPageId);
      chunks[i] := chunk.(id := Some(chunkId));
    }
    assert chunks[..] == AssignIds(original);
  }
}
