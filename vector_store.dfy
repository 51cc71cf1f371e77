/** The Chroma collection `medical_docs` as a keyed table: entry id to chunk
    text and `doc_id` metadata. Embeddings and distances are abstracted: a
    query is given the ids ranked by distance and applies the metadata filter
    and the result limit to that ranking. */
module VectorStore {
  import opened Wrappers

  /** One stored chunk: its text and its `doc_id` metadata. */
  datatype Entry = Entry(text: string, docId: int)

  /** What `collection.add` does with an id already in the collection; the
      library decides, so the model keeps it as a choice. */
  datatype OnExisting = Overwrite | Ignore | Reject

  /** The parallel `ids`/`documents`/`metadatas` lists of one `add` call, zipped. */
  type Batch = seq<(string, Entry)>

  const DuplicateIdsReason: string := "duplicate ids in one add"
  const ExistingIdReason: string := "id already exists"

  predicate DistinctIds(batch: Batch)
  {
    forall i, j :: 0 <= i < j < |batch| ==> batch[i].0 != batch[j].0
  }

  function Ids(batch: Batch): set<string>
  {
    set i | 0 <= i < |batch| :: batch[i].0
  }

  /** The batch as a table. */
  function BatchMap(batch: Batch): (m: map<string, Entry>)
    ensures m.Keys == Ids(batch)
  {
    if batch == [] then map[]
    else
      var init := batch[..|batch| - 1];
      var last := batch[|batch| - 1];
      assert Ids(batch) == Ids(init) + {last.0} by {
        assert forall i :: 0 <= i < |init| ==> init[i] == batch[i];
      }
      BatchMap(init)[last.0 := last.1]
  }

  /** With distinct ids, every entry of the batch is found under its id. */
  lemma {:induction false} BatchMapAt(batch: Batch, i: nat)
    requires DistinctIds(batch) && i < |batch|
    ensures BatchMap(batch)[batch[i].0] == batch[i].1
  {
    var init := batch[..|batch| - 1];
    if i < |batch| - 1 {
      assert init[i] == batch[i];
      assert DistinctIds(init);
      BatchMapAt(init, i);
    }
  }

  predicate AnyExisting(m: map<string, Entry>, batch: Batch)
  {
    exists i :: 0 <= i < |batch| && batch[i].0 in m
  }

  /** `collection.add`: all of the batch or none of it. It raises, leaving the
      table unchanged, when embedding fails, when the batch repeats an id, or
      when an id exists already and the store rejects existing ids. */
  function ApplyAdd(m: map<string, Entry>, policy: OnExisting, batch: Batch, embedFailure: Option<string>)
    : (r: (Outcome, map<string, Entry>))
    ensures r.0.Raised? ==> r.1 == m
    ensures r.0 == Done ==> r.1.Keys == m.Keys + Ids(batch)
    ensures r.0 == Done ==> forall k :: k in m && k !in Ids(batch) ==> r.1[k] == m[k]
  {
    if embedFailure.Some? then (Raised(embedFailure.value), m)
    else if !DistinctIds(batch) then (Raised(DuplicateIdsReason), m)
    else if policy == Reject && AnyExisting(m, batch) then (Raised(ExistingIdReason), m)
    else if policy == Overwrite then (Done, m + BatchMap(batch))
    else (Done, BatchMap(batch) + m)
  }

  /** Maps with disjoint keys can be merged in either order. */
  lemma DisjointUnionCommutes(m: map<string, Entry>, b: map<string, Entry>)
    requires m.Keys !! b.Keys
    ensures b + m == m + b
  {
    forall k | k in m + b ensures (m + b)[k] == (b + m)[k] {
      if k in b { assert k !in m; }
    }
    assert (m + b).Keys == (b + m).Keys;
  }

  /** Merging maps with disjoint keys adds their sizes. */
  lemma DisjointUnionSize(m: map<string, Entry>, b: map<string, Entry>)
    requires m.Keys !! b.Keys
    ensures |m + b| == |m| + |b|
  {
    assert (m + b).Keys == m.Keys + b.Keys;
    assert m.Keys * b.Keys == {};
  }

  lemma FreshIdsDisjoint(m: map<string, Entry>, batch: Batch)
    requires !AnyExisting(m, batch)
    ensures m.Keys !! Ids(batch)
  {
    forall k | k in Ids(batch) ensures k !in m {
      var i :| 0 <= i < |batch| && batch[i].0 == k;
    }
  }

  /** When none of the ids is present, a successful add is the same under
      every policy: the batch joins the table. */
  lemma AddFreshBatch(m: map<string, Entry>, policy: OnExisting, batch: Batch)
    requires DistinctIds(batch)
    requires !AnyExisting(m, batch)
    ensures ApplyAdd(m, policy, batch, None) == (Done, m + BatchMap(batch))
  {
    FreshIdsDisjoint(m, batch);
    DisjointUnionCommutes(m, BatchMap(batch));
  }

  /** After that add, every entry of the batch is found under its id. */
  lemma AddFreshBatchAt(m: map<string, Entry>, batch: Batch)
    requires DistinctIds(batch)
    ensures forall i :: 0 <= i < |batch| ==> (m + BatchMap(batch))[batch[i].0] == batch[i].1
  {
    forall i | 0 <= i < |batch| ensures (m + BatchMap(batch))[batch[i].0] == batch[i].1 {
      BatchMapAt(batch, i);
    }
  }

  /** Adding a batch of fresh, distinct ids grows the table by exactly the batch size. */
  lemma AddFreshBatchSize(m: map<string, Entry>, batch: Batch)
    requires DistinctIds(batch)
    requires !AnyExisting(m, batch)
    ensures |m + BatchMap(batch)| == |m| + |batch|
  {
    FreshIdsDisjoint(m, batch);
    DisjointUnionSize(m, BatchMap(batch));
    DistinctIdsCount(batch);
  }

  /** What the table looks like after a successful add of fresh, distinct
      ids: old entries untouched, each new one under its id, the size summed. */
  lemma FreshBatchFacts(m: map<string, Entry>, batch: Batch)
    requires DistinctIds(batch)
    requires !AnyExisting(m, batch)
    ensures (m + BatchMap(batch)).Keys == m.Keys + Ids(batch)
    ensures forall k :: k in m ==> (m + BatchMap(batch))[k] == m[k]
    ensures forall i :: 0 <= i < |batch| ==> (m + BatchMap(batch))[batch[i].0] == batch[i].1
    ensures |m + BatchMap(batch)| == |m| + |batch|
  {
    FreshIdsDisjoint(m, batch);
    AddFreshBatchAt(m, batch);
    AddFreshBatchSize(m, batch);
  }

  /** A batch of distinct ids has as many ids as entries. */
  lemma {:induction false} DistinctIdsCount(batch: Batch)
    requires DistinctIds(batch)
    ensures |Ids(batch)| == |batch|
  {
    if batch != [] {
      var init := batch[..|batch| - 1];
      var last := batch[|batch| - 1].0;
      assert DistinctIds(init);
      DistinctIdsCount(init);
      assert Ids(batch) == Ids(init) + {last};
      assert last !in Ids(init);
    }
  }

  /** `collection.delete(where={"doc_id": d})`. */
  function DeleteDoc(m: map<string, Entry>, d: int): map<string, Entry>
  {
    map k | k in m && m[k].docId != d :: m[k]
  }

  /** Delete removes exactly the entries tagged `d` and changes no other entry. */
  lemma DeleteDocExact(m: map<string, Entry>, d: int)
    ensures forall k :: k in DeleteDoc(m, d) ==> DeleteDoc(m, d)[k].docId != d
    ensures forall k :: k in m && m[k].docId != d ==> k in DeleteDoc(m, d) && DeleteDoc(m, d)[k] == m[k]
    ensures DeleteDoc(m, d).Keys <= m.Keys
  {
  }

  /** Deleting a document's entries twice is deleting them once, and the
      deletes of two documents commute. */
  lemma DeleteDocIdempotent(m: map<string, Entry>, d: int, e: int)
    ensures DeleteDoc(DeleteDoc(m, d), d) == DeleteDoc(m, d)
    ensures DeleteDoc(DeleteDoc(m, d), e) == DeleteDoc(DeleteDoc(m, e), d)
  {
  }

  /** The ranked entries that pass the metadata filter `doc_id in allowed`, in
      ranking order. Ranked ids no longer in the table are skipped. */
  function Matching(entries: map<string, Entry>, ranking: seq<string>, allowed: set<int>): (r: seq<Entry>)
    ensures |r| <= |ranking|
    ensures forall i :: 0 <= i < |r| ==> r[i].docId in allowed && r[i] in entries.Values
  {
    if ranking == [] then []
    else
      var rest := Matching(entries, ranking[1..], allowed);
      var id := ranking[0];
      if id in entries && entries[id].docId in allowed then [entries[id]] + rest else rest
  }

  /** Every ranked entry that passes the filter is matched. */
  lemma {:induction false} MatchingComplete(entries: map<string, Entry>, ranking: seq<string>, allowed: set<int>, k: string)
    requires k in ranking && k in entries && entries[k].docId in allowed
    ensures entries[k] in Matching(entries, ranking, allowed)
  {
    if ranking[0] != k {
      MatchingComplete(entries, ranking[1..], allowed, k);
    }
  }

  /** Two collections hold the same entries of the allowed documents. */
  predicate AgreeOn(entries: map<string, Entry>, entries': map<string, Entry>, allowed: set<int>)
  {
    && (forall k :: k in entries && entries[k].docId in allowed ==> k in entries' && entries'[k] == entries[k])
    && (forall k :: k in entries' && entries'[k].docId in allowed ==> k in entries && entries[k] == entries'[k])
  }

  /** A filtered query sees only the entries that pass the filter: collections
      that agree on those give the same matches. */
  lemma {:induction false} MatchingSeesOnlyAllowed(entries: map<string, Entry>, entries': map<string, Entry>,
                                                   ranking: seq<string>, allowed: set<int>)
    requires AgreeOn(entries, entries', allowed)
    ensures Matching(entries, ranking, allowed) == Matching(entries', ranking, allowed)
  {
    if ranking != [] {
      MatchingSeesOnlyAllowed(entries, entries', ranking[1..], allowed);
    }
  }

  /** `collection.query(n_results = n, where = {"doc_id": {"$in": allowed}})`:
      the first `n` matching entries of the ranking. */
  function Retrieve(entries: map<string, Entry>, ranking: seq<string>, allowed: set<int>, n: nat): seq<Entry>
  {
    var ms := Matching(entries, ranking, allowed);
    if |ms| <= n then ms else ms[..n]
  }

  /** The filter is a hard boundary and the limit holds: at most `n` entries,
      each one stored and tagged with an allowed document; fewer than `n` only
      when no other ranked entry passes the filter. */
  lemma RetrieveSound(entries: map<string, Entry>, ranking: seq<string>, allowed: set<int>, n: nat)
    ensures var r := Retrieve(entries, ranking, allowed, n);
      && |r| <= n
      && (forall i :: 0 <= i < |r| ==> r[i].docId in allowed && r[i] in entries.Values)
      && (|r| < n ==> forall k :: k in ranking && k in entries && entries[k].docId in allowed ==> entries[k] in r)
  {
    var r := Retrieve(entries, ranking, allowed, n);
    var ms := Matching(entries, ranking, allowed);
    if |r| < n {
      forall k | k in ranking && k in entries && entries[k].docId in allowed ensures entries[k] in r {
        MatchingComplete(entries, ranking, allowed, k);
      }
    }
  }

  /** Once a document's entries are deleted, no query returns any of them. */
  lemma RetrieveAfterDelete(entries: map<string, Entry>, d: int, ranking: seq<string>, allowed: set<int>, n: nat)
    ensures forall i :: 0 <= i < |Retrieve(DeleteDoc(entries, d), ranking, allowed, n)| ==>
      Retrieve(DeleteDoc(entries, d), ranking, allowed, n)[i].docId != d
  {
    var m := DeleteDoc(entries, d);
    RetrieveSound(m, ranking, allowed, n);
    DeleteDocExact(entries, d);
  }

  /** The process-wide collection. */
  class Store {
    var entries: map<string, Entry>
    const onExisting: OnExisting

    /** `get_or_create_collection`: the collection persisted so far, empty on
        the first start. */
    constructor (policy: OnExisting, persisted: map<string, Entry>)
      ensures entries == persisted && onExisting == policy
    {
      entries := persisted;
      onExisting := policy;
    }

    /** `collection.add(documents, metadatas, ids)`. */
    method Add(batch: Batch, embedFailure: Option<string>) returns (res: Outcome)
      modifies this
      ensures (res, entries) == ApplyAdd(old(entries), onExisting, batch, embedFailure)
    {
      var r := ApplyAdd(entries, onExisting, batch, embedFailure);
      res, entries := r.0, r.1;
    }

    /** `collection.delete(where={"doc_id": docId})`. */
    method DeleteWhere(docId: int)
      modifies this
      ensures entries == DeleteDoc(old(entries), docId)
      ensures forall k :: k in entries ==> entries[k].docId != docId
      ensures forall k :: k in old(entries) && old(entries)[k].docId != docId ==> k in entries && entries[k] == old(entries)[k]
    {
      entries := DeleteDoc(entries, docId);
    }
  }
}
