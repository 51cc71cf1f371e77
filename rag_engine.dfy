/** The retrieval pipeline: `process_document` (extract, fall back, chunk,
    index), `delete_document_embeddings`, and `query_rag` (owner filter,
    retrieval, context, key check, answer or error text). */
module RagEngine {
  import opened Wrappers
  import opened Text
  import opened Chunker
  import opened Extractor
  import opened VectorStore
  import opened Models

  // ---------------------------------------------------------------------------
  // Indexing
  // ---------------------------------------------------------------------------

  /** The entry id `doc_{doc_id}_chunk_{i}`. */
  function ChunkId(docId: int, i: nat): string
  {
    "doc_" + IntToDecimal(docId) + "_chunk_" + IntToDecimal(i)
  }

  /** If `x + [c] + y == x' + [c] + y'` and neither `x` nor `x'` holds `c`, the
      two splits are the same. */
  lemma SplitAtFirst(x: string, y: string, x': string, y': string, c: char)
    requires c !in x && c !in x'
    requires x + [c] + y == x' + [c] + y'
    ensures x == x' && y == y'
  {
    var s := x + [c] + y;
    FirstIndexOfSplit(x, y, c);
    FirstIndexOfSplit(x', y', c);
    assert x == s[..|x|] && x' == s[..|x'|];
    assert y == s[|x| + 1..] && y' == s[|x'| + 1..];
  }

  /** The two splits of `pre + x + [c] + mid + y` around the first `c` after `pre` agree. */
  lemma SplitAround(pre: string, x: string, y: string, x': string, y': string, c: char, mid: string)
    requires c !in x && c !in x'
    requires pre + x + [c] + mid + y == pre + x' + [c] + mid + y'
    ensures x == x' && y == y'
  {
    var s := pre + x + [c] + mid + y;
    assert s[|pre|..] == x + [c] + (mid + y);
    assert s[|pre|..] == x' + [c] + (mid + y');
    SplitAtFirst(x, mid + y, x', mid + y', c);
    assert y == (mid + y)[|mid|..] && y' == (mid + y')[|mid|..];
  }

  lemma NoUnderscore(n: int)
    ensures '_' !in IntToDecimal(n)
  {
    var s := IntToDecimal(n);
    forall j | 0 <= j < |s| ensures s[j] != '_' {
      if j == 0 { assert s[0] == '-' || '0' <= s[0] <= '9'; }
    }
  }

  /** Two chunks get the same id only if they are the same chunk of the same
      document, so documents never overwrite each other's entries. */
  lemma ChunkIdInjective(d: int, i: nat, d': int, i': nat)
    requires ChunkId(d, i) == ChunkId(d', i')
    ensures d == d' && i == i'
  {
    var a, a' := IntToDecimal(d), IntToDecimal(d');
    var b, b' := IntToDecimal(i), IntToDecimal(i');
    assert "_chunk_" == ['_'] + "chunk_";
    assert ChunkId(d, i) == "doc_" + a + ['_'] + "chunk_" + b;
    assert ChunkId(d', i') == "doc_" + a' + ['_'] + "chunk_" + b';
    NoUnderscore(d);
    NoUnderscore(d');
    SplitAround("doc_", a, b, a', b', '_', "chunk_");
    IntToDecimalInjective(d, d');
    IntToDecimalInjective(i, i');
  }

  /** The first `n` chunk ids of one document are pairwise distinct. */
  lemma ChunkIdsDistinct(docId: int, n: nat)
    ensures forall i, j :: 0 <= i < j < n ==> ChunkId(docId, i) != ChunkId(docId, j)
  {
    forall i, j | 0 <= i < j < n ensures ChunkId(docId, i) != ChunkId(docId, j) {
      if ChunkId(docId, i) == ChunkId(docId, j) { ChunkIdInjective(docId, i, docId, j); }
    }
  }

  /** The `ids`, `documents` and `metadatas` lists of `process_document`,
      zipped: one entry per chunk, in order, every one tagged `docId`, under
      pairwise distinct ids that are exactly the document's chunk ids. */
  function ChunkBatch(docId: int, chunks: seq<string>): (b: Batch)
    ensures |b| == |chunks|
    ensures forall i :: 0 <= i < |b| ==> b[i].0 == ChunkId(docId, i) && b[i].1 == Entry(chunks[i], docId)
    ensures DistinctIds(b)
    ensures Ids(b) == set i | 0 <= i < |chunks| :: ChunkId(docId, i)
    ensures forall i :: 0 <= i < |b| ==> b[i].1.docId == docId
  {
    ChunkIdsDistinct(docId, |chunks|);
    var b := seq(|chunks|, i requires 0 <= i < |chunks| => (ChunkId(docId, i), Entry(chunks[i], docId)));
    assert Ids(b) == set i | 0 <= i < |chunks| :: ChunkId(docId, i) by {
      forall k | k in Ids(b) ensures exists i :: 0 <= i < |chunks| && k == ChunkId(docId, i) {
        var i :| 0 <= i < |b| && b[i].0 == k;
      }
      forall i | 0 <= i < |chunks| ensures ChunkId(docId, i) in Ids(b) {
        assert b[i].0 == ChunkId(docId, i);
      }
    }
    b
  }

  /** The specification of `process_document`: what it raises (or `Done`) and
      the collection afterwards. */
  function Process(entries: map<string, Entry>, policy: OnExisting, docId: int, filePath: string,
                   files: map<string, StoredFile>, embedFailure: Option<string>): (Outcome, map<string, Entry>)
  {
    if filePath !in files then (Done, entries)
    else match ExtractText(LowerExt(filePath), files[filePath])
      case Err(e) => (Raised(e), entries)
      case Ok(raw) => ApplyAdd(entries, policy, ChunkBatch(docId, Chunks(IndexedText(filePath, raw))), embedFailure)
  }

  /** `process_document(doc_id, file_path)`. `files` is the upload directory,
      `embedFailure` the reason the embedding of the chunks fails, if it does. */
  method ProcessDocument(store: Store, docId: int, filePath: string, files: map<string, StoredFile>,
                         embedFailure: Option<string>) returns (res: Outcome)
    modifies store
    ensures (res, store.entries) == Process(old(store.entries), store.onExisting, docId, filePath, files, embedFailure)
  {
    if filePath !in files {
      return Done;
    }
    var ext := LowerExt(filePath);
    var file := files[filePath];
    var text := "";
    if ext == ".pdf" {
      match file.pdfPages {
        case Err(e) => return Raised(e);
        case Ok(pages) => text := PdfText(pages);
      }
    } else if ext in [".png", ".jpg", ".jpeg"] {
      text := ImageText(file.ocr);
    } else if ext == ".txt" {
      match file.utf8 {
        case Err(e) => return Raised(e);
        case Ok(s) => text := TranslateNewlines(s);
      }
    }
    assert ExtractText(ext, file) == Ok(text);
    if IsBlank(text) {
      text := FallbackText(filePath);
    }
    var chunks := ChunkText(text);
    res := store.Add(ChunkBatch(docId, chunks), embedFailure);
  }

  /** A file that is not on disk adds nothing; a reader that raises adds nothing. */
  lemma ProcessWithoutText(entries: map<string, Entry>, policy: OnExisting, docId: int, filePath: string,
                           files: map<string, StoredFile>, embedFailure: Option<string>)
    requires filePath !in files || ExtractText(LowerExt(filePath), files[filePath]).Err?
    ensures Process(entries, policy, docId, filePath, files, embedFailure).1 == entries
    ensures filePath !in files ==> Process(entries, policy, docId, filePath, files, embedFailure).0 == Done
  {
  }

  /** A file on disk whose reader does not raise always has at least one chunk:
      the `if not chunks: return` guard of `process_document` never fires. */
  lemma ExistingFileHasChunks(filePath: string, raw: string)
    ensures 1 <= |Chunks(IndexedText(filePath, raw))|
  {
    ChunksNonEmpty(IndexedText(filePath, raw));
  }

  /** Indexing a readable file whose entries are not yet in the collection adds
      exactly its `n >= 1` chunks, under the ids `doc_{docId}_chunk_0 ..
      doc_{docId}_chunk_{n-1}`, each tagged with `docId`, and nothing else. */
  lemma ProcessIndexesChunks(entries: map<string, Entry>, policy: OnExisting, docId: int, filePath: string,
                             files: map<string, StoredFile>, raw: string)
    requires filePath in files && ExtractText(LowerExt(filePath), files[filePath]) == Ok(raw)
    requires forall i: nat :: ChunkId(docId, i) !in entries
    ensures var chunks := Chunks(IndexedText(filePath, raw));
      var r := Process(entries, policy, docId, filePath, files, None);
      && 1 <= |chunks|
      && r.0 == Done
      && r.1.Keys == entries.Keys + (set i | 0 <= i < |chunks| :: ChunkId(docId, i))
      && (forall i :: 0 <= i < |chunks| ==> ChunkId(docId, i) in r.1 && r.1[ChunkId(docId, i)] == Entry(chunks[i], docId))
      && (forall k :: k in entries ==> k in r.1 && r.1[k] == entries[k])
      && |r.1| == |entries| + |chunks|
  {
    var chunks := Chunks(IndexedText(filePath, raw));
    ExistingFileHasChunks(filePath, raw);
    ProcessFreshFile(entries, policy, docId, filePath, files, raw);
    ChunkBatchAdded(entries, docId, chunks);
    ChunkBatchKeys(entries, docId, chunks);
  }

  /** The collection after a document's chunks are added under fresh ids:
      each chunk under its id, the old entries intact, the size summed. */
  lemma ChunkBatchAdded(entries: map<string, Entry>, docId: int, chunks: seq<string>)
    requires forall i: nat :: ChunkId(docId, i) !in entries
    ensures var m := entries + BatchMap(ChunkBatch(docId, chunks));
      && (forall i :: 0 <= i < |chunks| ==> ChunkId(docId, i) in m && m[ChunkId(docId, i)] == Entry(chunks[i], docId))
      && (forall k :: k in entries ==> k in m && m[k] == entries[k])
      && |m| == |entries| + |chunks|
  {
    FreshChunkIds(entries, docId, chunks);
    FreshBatchFacts(entries, ChunkBatch(docId, chunks));
  }

  /** The ids added for a document are exactly `doc_{docId}_chunk_{i}` for its chunk indexes. */
  lemma ChunkBatchKeys(entries: map<string, Entry>, docId: int, chunks: seq<string>)
    ensures (entries + BatchMap(ChunkBatch(docId, chunks))).Keys
         == entries.Keys + (set i | 0 <= i < |chunks| :: ChunkId(docId, i))
  {
  }

  lemma FreshChunkIds(entries: map<string, Entry>, docId: int, chunks: seq<string>)
    requires forall i: nat :: ChunkId(docId, i) !in entries
    ensures !AnyExisting(entries, ChunkBatch(docId, chunks))
  {
  }

  /** A readable file is added as one batch of its chunks, and, when none of
      its ids is present, the add succeeds under every policy. */
  lemma ProcessFreshFile(entries: map<string, Entry>, policy: OnExisting, docId: int, filePath: string,
                         files: map<string, StoredFile>, raw: string)
    requires filePath in files && ExtractText(LowerExt(filePath), files[filePath]) == Ok(raw)
    requires forall i: nat :: ChunkId(docId, i) !in entries
    ensures var b := ChunkBatch(docId, Chunks(IndexedText(filePath, raw)));
      Process(entries, policy, docId, filePath, files, None) == (Done, entries + BatchMap(b))
  {
    var b := ChunkBatch(docId, Chunks(IndexedText(filePath, raw)));
    FreshChunkIds(entries, docId, Chunks(IndexedText(filePath, raw)));
    AddFreshBatch(entries, policy, b);
  }

  /** Whatever the file, the policy or the embedding outcome, indexing a
      document whose ids are fresh changes no existing entry and adds only
      entries under that document's chunk ids, tagged with it. */
  lemma ProcessTouchesOnlyItsIds(entries: map<string, Entry>, policy: OnExisting, docId: int, filePath: string,
                                 files: map<string, StoredFile>, embedFailure: Option<string>)
    requires forall i: nat :: ChunkId(docId, i) !in entries
    ensures var m := Process(entries, policy, docId, filePath, files, embedFailure).1;
      && (forall k :: k in entries ==> k in m && m[k] == entries[k])
      && (forall k :: k in m && k !in entries ==> m[k].docId == docId && exists i: nat :: k == ChunkId(docId, i))
  {
    if filePath !in files || ExtractText(LowerExt(filePath), files[filePath]).Err? {
      ProcessWithoutText(entries, policy, docId, filePath, files, embedFailure);
    } else if embedFailure.Some? {
      ProcessEmbedFailure(entries, policy, docId, filePath, files, embedFailure.value);
    } else {
      var raw := ExtractText(LowerExt(filePath), files[filePath]).value;
      var b := ChunkBatch(docId, Chunks(IndexedText(filePath, raw)));
      ProcessFreshFile(entries, policy, docId, filePath, files, raw);
      ChunkBatchAddsOnlyItsIds(entries, docId, b);
    }
  }

  /** Adding a document's batch under fresh ids keeps every old entry and adds
      only entries under that document's chunk ids, tagged with it. */
  lemma ChunkBatchAddsOnlyItsIds(entries: map<string, Entry>, docId: int, b: Batch)
    requires forall i: nat :: ChunkId(docId, i) !in entries
    requires forall i :: 0 <= i < |b| ==> b[i].0 == ChunkId(docId, i) && b[i].1.docId == docId
    ensures var m := entries + BatchMap(b);
      && (forall k :: k in entries ==> k in m && m[k] == entries[k])
      && (forall k :: k in m && k !in entries ==> m[k].docId == docId && exists i: nat :: k == ChunkId(docId, i))
  {
    var add := BatchMap(b);
    var m := entries + add;
    assert DistinctIds(b) by {
      forall i, j | 0 <= i < j < |b| ensures b[i].0 != b[j].0 {
        if b[i].0 == b[j].0 { ChunkIdInjective(docId, i, docId, j); }
      }
    }
    assert !AnyExisting(entries, b);
    FreshIdsDisjoint(entries, b);
    forall k | k in m && k !in entries ensures m[k].docId == docId && exists i: nat :: k == ChunkId(docId, i) {
      var i :| 0 <= i < |b| && b[i].0 == k;
      BatchMapAt(b, i);
      assert m[ChunkId(docId, i)] == b[i].1;
    }
  }

  /** When the embedding fails, nothing is added and the failure is raised. */
  lemma ProcessEmbedFailure(entries: map<string, Entry>, policy: OnExisting, docId: int, filePath: string,
                            files: map<string, StoredFile>, reason: string)
    requires filePath in files && ExtractText(LowerExt(filePath), files[filePath]).Ok?
    ensures Process(entries, policy, docId, filePath, files, Some(reason)) == (Raised(reason), entries)
  {
  }

  /** `delete_document_embeddings(doc_id)`. */
  method DeleteDocumentEmbeddings(store: Store, docId: int)
    modifies store
    ensures store.entries == DeleteDoc(old(store.entries), docId)
  {
    store.DeleteWhere(docId);
  }

  // ---------------------------------------------------------------------------
  // Querying
  // ---------------------------------------------------------------------------

  const NoDocumentsMessage: string := "You haven't uploaded any documents yet."
  const MissingKeyMessage: string := "[System] Gemini API Key is missing. Please add it to backend/.env file."
  const PlaceholderKey: string := "paste_your_key_here"
  const GenerationErrorPrefix: string := "[Error] Failed to generate response from Gemini: "
  const ContextSeparator: string := "\n\n"

  /** What the generation service does with a prompt: an answer, or the reason it raised. */
  datatype Generation = Generated(text: string) | GenerationFailed(reason: string)

  /** `not api_key or api_key == "paste_your_key_here"`. */
  predicate KeyMissing(apiKey: Option<string>)
  {
    apiKey == None || apiKey == Some("") || apiKey == Some(PlaceholderKey)
  }

  /** `results['documents'][0]`: the texts of the retrieved entries, in order. */
  function Texts(hits: seq<Entry>): seq<string>
  {
    seq(|hits|, i requires 0 <= i < |hits| => hits[i].text)
  }

  /** `"\n\n".join(context_chunks)`. */
  function Context(hits: seq<Entry>): string
  {
    Join(Texts(hits), ContextSeparator)
  }

  const PromptHead: string :=
    "\n        You are a helpful medical assistant. \n"
    + "        - If the user's input is a greeting (like \"Hi\", \"Hello\") or general conversation, respond politely and ask how you can help with their medical records.\n"
    + "        - For specific questions, answer based ONLY on the provided context.\n"
    + "        - If the answer to a specific question is not in the context, say \"I cannot find this information in your documents.\"\n"
    + "        \n        Context:\n        "

  const PromptMiddle: string := "\n        \n        Question:\n        "
  const PromptTail: string := "\n        \n        Answer:\n        "

  /** The instruction prompt around the context and the question. */
  function Prompt(context: string, query: string): string
  {
    PromptHead + context + PromptQuestion(query)
  }

  /** The part of the prompt after the context. */
  function PromptQuestion(query: string): string
  {
    PromptMiddle + query + PromptTail
  }

  /** The chunks found for a user: the ranked entries of that user's documents, at most `n`. */
  function UserHits(docs: Table, userId: int, entries: map<string, Entry>, ranking: seq<string>, n: nat): seq<Entry>
  {
    Retrieve(entries, ranking, OwnedIds(docs, userId), n)
  }

  /** `query_rag(query_text, user_id, n_results)`. `entries` is the collection,
      `ranking` its ids ordered by distance to the query's embedding, `apiKey`
      the `GEMINI_API_KEY` environment variable and `generate` the model call. */
  function QueryRag(query: string, userId: int, docs: Table, entries: map<string, Entry>, ranking: seq<string>,
                    n: nat, apiKey: Option<string>, generate: string -> Generation): (answer: string)
  {
    if OwnedIds(docs, userId) == {} then NoDocumentsMessage
    else
      var context := Context(UserHits(docs, userId, entries, ranking, n));
      if KeyMissing(apiKey) then MissingKeyMessage
      else match generate(Prompt(context, query))
        case Generated(t) => t
        case GenerationFailed(e) => GenerationErrorPrefix + e
  }

  /** A user without documents gets the fixed message, whatever the collection,
      the key or the generator: neither the collection nor the generator is
      consulted. */
  lemma QueryWithoutDocuments(query: string, userId: int, docs: Table, entries: map<string, Entry>,
                              ranking: seq<string>, n: nat, apiKey: Option<string>,
                              generate: string -> Generation, entries': map<string, Entry>,
                              ranking': seq<string>, apiKey': Option<string>, generate': string -> Generation)
    requires forall k :: k in docs ==> docs[k].userId != userId
    ensures QueryRag(query, userId, docs, entries, ranking, n, apiKey, generate) == NoDocumentsMessage
    ensures QueryRag(query, userId, docs, entries, ranking, n, apiKey, generate)
         == QueryRag(query, userId, docs, entries', ranking', n, apiKey', generate')
  {
    assert OwnedIds(docs, userId) == {};
  }

  /** A missing or placeholder key gives the fixed message before any
      generation: the answer does not depend on the generator. */
  lemma QueryWithoutKey(query: string, userId: int, docs: Table, entries: map<string, Entry>,
                        ranking: seq<string>, n: nat, apiKey: Option<string>,
                        generate: string -> Generation, generate': string -> Generation)
    requires OwnedIds(docs, userId) != {}
    requires KeyMissing(apiKey)
    ensures QueryRag(query, userId, docs, entries, ranking, n, apiKey, generate) == MissingKeyMessage
    ensures QueryRag(query, userId, docs, entries, ranking, n, apiKey, generate)
         == QueryRag(query, userId, docs, entries, ranking, n, apiKey, generate')
  {
  }

  /** With documents and a key, the answer is the generated text, or the error
      text carrying the reason: a failing generation call is caught and
      answered, never raised. */
  lemma QueryAnswers(query: string, userId: int, docs: Table, entries: map<string, Entry>,
                     ranking: seq<string>, n: nat, apiKey: Option<string>, generate: string -> Generation)
    requires OwnedIds(docs, userId) != {}
    requires !KeyMissing(apiKey)
    ensures var prompt := Prompt(Context(UserHits(docs, userId, entries, ranking, n)), query);
      var answer := QueryRag(query, userId, docs, entries, ranking, n, apiKey, generate);
      && (generate(prompt).Generated? ==> answer == generate(prompt).text)
      && (generate(prompt).GenerationFailed? ==>
            answer == GenerationErrorPrefix + generate(prompt).reason
            && answer[..|GenerationErrorPrefix|] == GenerationErrorPrefix)
  {
  }

  /** Tenant isolation: every chunk retrieved for a user is a stored entry of
      a document that user owns, and there are at most `n` of them. */
  lemma UserHitsIsolated(docs: Table, userId: int, entries: map<string, Entry>, ranking: seq<string>, n: nat)
    requires WellKeyed(docs)
    ensures var hits := UserHits(docs, userId, entries, ranking, n);
      && |hits| <= n
      && forall i :: 0 <= i < |hits| ==>
           hits[i].docId in docs && docs[hits[i].docId].userId == userId && hits[i] in entries.Values
  {
    var owned := OwnedIds(docs, userId);
    RetrieveSound(entries, ranking, owned, n);
    var hits := UserHits(docs, userId, entries, ranking, n);
    forall i | 0 <= i < |hits|
      ensures hits[i].docId in docs && docs[hits[i].docId].userId == userId
    {
      OwnedIdsExact(docs, userId, hits[i].docId);
    }
  }

  /** Tenant isolation of answers: entries of documents the user does not own
      never change that user's answer. */
  lemma QueryRagIsolated(query: string, userId: int, docs: Table, entries: map<string, Entry>,
                         entries': map<string, Entry>, ranking: seq<string>, n: nat, apiKey: Option<string>,
                         generate: string -> Generation)
    requires AgreeOn(entries, entries', OwnedIds(docs, userId))
    ensures QueryRag(query, userId, docs, entries, ranking, n, apiKey, generate)
         == QueryRag(query, userId, docs, entries', ranking, n, apiKey, generate)
  {
    MatchingSeesOnlyAllowed(entries, entries', ranking, OwnedIds(docs, userId));
  }

  /** Deleting the embeddings of a document the user does not own leaves the
      user's answer unchanged. */
  lemma QueryAfterOtherDelete(query: string, userId: int, docs: Table, entries: map<string, Entry>, d: int,
                              ranking: seq<string>, n: nat, apiKey: Option<string>, generate: string -> Generation)
    requires d !in OwnedIds(docs, userId)
    ensures QueryRag(query, userId, docs, entries, ranking, n, apiKey, generate)
         == QueryRag(query, userId, docs, DeleteDoc(entries, d), ranking, n, apiKey, generate)
  {
    QueryRagIsolated(query, userId, docs, entries, DeleteDoc(entries, d), ranking, n, apiKey, generate);
  }

  /** Indexing a document the user does not own, whatever it raises, leaves
      the user's answer unchanged. */
  lemma QueryAfterOtherProcess(query: string, userId: int, docs: Table, entries: map<string, Entry>,
                               ranking: seq<string>, n: nat, apiKey: Option<string>, generate: string -> Generation,
                               policy: OnExisting, docId: int, filePath: string, files: map<string, StoredFile>,
                               embedFailure: Option<string>)
    requires docId !in OwnedIds(docs, userId)
    requires forall i: nat :: ChunkId(docId, i) !in entries
    ensures QueryRag(query, userId, docs, entries, ranking, n, apiKey, generate)
         == QueryRag(query, userId, docs, Process(entries, policy, docId, filePath, files, embedFailure).1,
                     ranking, n, apiKey, generate)
  {
    ProcessTouchesOnlyItsIds(entries, policy, docId, filePath, files, embedFailure);
    QueryRagIsolated(query, userId, docs, entries, Process(entries, policy, docId, filePath, files, embedFailure).1,
                     ranking, n, apiKey, generate);
  }

  /** A slice of the middle of `a + b + c` is the slice of `b`. */
  lemma SliceOfMiddle(a: string, b: string, c: string, lo: nat, hi: nat)
    requires lo <= hi <= |b|
    ensures |a| + hi <= |a + b + c|
    ensures (a + b + c)[|a| + lo..|a| + hi] == b[lo..hi]
  {
    assert forall j :: lo <= j < hi ==> (a + b + c)[|a| + j] == b[j];
  }

  /** A joined part framed by any head and tail is found after the head at its offset. */
  lemma FramedJoinHoldsPart(head: string, parts: seq<string>, sep: string, tail: string, k: nat)
    requires k < |parts|
    ensures var at := |head| + JoinOffset(parts, sep, k);
      at + |parts[k]| <= |head + Join(parts, sep) + tail|
      && (head + Join(parts, sep) + tail)[at..at + |parts[k]|] == parts[k]
  {
    var o := JoinOffset(parts, sep, k);
    JoinContainsPart(parts, sep, k);
    SliceOfMiddle(head, Join(parts, sep), tail, o, o + |parts[k]|);
  }

  /** The prompt handed to the generator holds every retrieved chunk verbatim,
      at its place in the `"\n\n"`-joined context. */
  lemma PromptHoldsHits(hits: seq<Entry>, query: string, k: nat)
    requires k < |hits|
    ensures var at := |PromptHead| + JoinOffset(Texts(hits), ContextSeparator, k);
      var p := Prompt(Context(hits), query);
      at + |hits[k].text| <= |p| && p[at..at + |hits[k].text|] == hits[k].text
  {
    FramedJoinHoldsPart(PromptHead, Texts(hits), ContextSeparator, PromptQuestion(query), k);
  }
}
