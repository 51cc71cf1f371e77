# Medical-records RAG backend: indexing, retrieval and document lifecycle

This project models the retrieval core of a medical-records assistant. Users
upload PDF, image and plain-text files. Each file's text is extracted, cut
into overlapping windows, and stored as entries of a vector collection
(`medical_docs`), each tagged with the id of the document it came from. A
user's question is answered from the chunks of that user's own documents.

- `Text` (`text.dfy`) covers the pieces of Python's string and path library the pipeline relies on: `str(int)`, `str.isspace`/`strip`, `str.lower`, `os.path.splitext`, `os.path.basename`, `os.path.join` and `str.join`.
- `Chunker` (`chunker.dfy`) is the sliding window of width 1000 and stride 900, both as a function and as the loop of `process_document`.
- `Extractor` (`extractor.dfy`) covers the extension dispatch, PDF page concatenation, the OCR sentinels, text-mode reading and the "Filename: … [Content unreadable …]" fallback.
- `VectorStore` (`vector_store.dfy`) models the collection as a class holding a map from entry id to `(text, doc_id)`:
  - an all-or-nothing `add`;
  - delete by `doc_id`;
  - a query that applies the `doc_id $in …` filter and the result limit to an abstract ranking.
- `Models` (`models.dfy`) is the `documents` table.
- `RagEngine` (`rag_engine.dfy`) models three functions:
  - `process_document`, as a method proved against the function `Process`;
  - `delete_document_embeddings`;
  - `query_rag`, as a function of the table, the collection, the ranking, the key and the generator.
- `Documents` (`documents.dfy`) models the `/documents` routes as a class holding the table, the upload directory and the collection:
  - `upload_document` with its whitelist and stored name;
  - `get_documents`;
  - `delete_document`.
  The class keeps one invariant, `Consistent`:
  - every entry belongs to a stored document;
  - every entry sits under a chunk id of the document it is tagged with;
  - every row sits under its own id.

Some behaviours of the program worth stating plainly:
- Entry ids are `doc_{doc_id}_chunk_{i}` (rag_engine.py:110).
- Every PDF page's text is followed by `"\n"`, the last page's included (rag_engine.py:35).
- The collection is written with `add`. What happens to an id that already exists is the `OnExisting` choice of the store.
- An image whose OCR is unavailable or fails is indexed as its sentinel text (rag_engine.py:59-64). The sentinels are not blank, so the "Filename: …" fallback (rag_engine.py:89-94) applies in three cases:
  - OCR succeeds with blank output;
  - a PDF or text file is blank;
  - the extension matches no branch of the dispatch (rag_engine.py:79-85), which leaves the text `""`. An upload never stores such a file (`Documents.StoredPathKeepsExtension`), but `process_document` itself accepts one.

## Model

| member | source | states |
|---|---|---|
| Text.IntToDecimal | backend1/app/rag_engine.py:110 | `str(n)`: non-empty; starts with `-` exactly for negative numbers; otherwise digits only |
| Text.IntToDecimalInjective | backend1/app/rag_engine.py:110 | different integers print differently |
| Text.NatDigitsInjective | backend1/app/rag_engine.py:110 | the digit strings of different naturals differ |
| Text.NatDigits | backend1/app/rag_engine.py:110 | the digits of a natural: non-empty, decimal digits only, a single digit exactly below 10; injectivity in Text.NatDigitsInjective |
| Text.Lower | backend1/app/rag_engine.py:76 | `lower()` keeps the length and lower-cases each character in place |
| Text.IsSpace | backend1/app/rag_engine.py:89 | definition of `str.isspace` on one character; properties in Extractor.OcrSentinelsNotBlank and Extractor.IndexedText |
| Text.IsBlank | backend1/app/rag_engine.py:89 | definition of `not text.strip()`; properties in Extractor.PagesTextBlank, Extractor.TranslateNewlinesBlank and Extractor.IndexedText |
| Text.LastIndexOf | backend1/app/rag_engine.py:91 | the result is the last position of the character, or -1 when it does not occur |
| Text.SplitExt | backend1/app/routers/documents.py:43 | `splitext`: root followed by extension is the path |
| Text.SplitExtShape | backend1/app/rag_engine.py:76 | the extension is empty, or a dot followed by no further dot and no `/` |
| Text.Ext | backend1/app/rag_engine.py:76 | definition of `splitext(p)[1]`; properties in Text.SplitExtShape and Text.ExtOfJoinedName |
| Text.LowerExt | backend1/app/rag_engine.py:76 | definition (`splitext(p)[1].lower()`, shared by the upload check and the dispatch); properties in Text.SplitExtShape and Documents.StoredPathKeepsExtension |
| Text.Basename | backend1/app/rag_engine.py:91 | `basename` is the suffix of the path that starts right after its last `/` (or the whole path when it has none), and holds no `/` |
| Text.JoinPath | backend1/app/routers/documents.py:49 | definition of `os.path.join` for a relative name; properties in Text.ExtOfJoinedName |
| Text.ExtOfJoinedName | backend1/app/routers/documents.py:48-49 | joining a directory with `stem + ext` (stem without dot or slash) gives a path whose extension is `ext` |
| Text.Join | backend1/app/rag_engine.py:157 | definition of `sep.join(parts)`; properties in Text.JoinContainsPart |
| Text.JoinContainsPart | backend1/app/rag_engine.py:157 | each part appears unchanged at its offset in the joined string |
| Chunker.NumChunksIs | backend1/app/rag_engine.py:101 | ceil(n/900) is the unique count whose windows start before n and cover n |
| Chunker.NumChunksBounds | backend1/app/rag_engine.py:101 | ceil(n/900) is 0 only for 0, and 900(c-1) < n <= 900c |
| Chunker.NumChunks | backend1/app/rag_engine.py:101 | definition of `len(range(0, n, 900))`; properties in Chunker.NumChunksIs and Chunker.NumChunksBounds |
| Chunker.Chunks | backend1/app/rag_engine.py:101-103 | definition of the window sequence; properties in Chunker.ChunksShape, Chunker.ChunkText and Chunker.ReassembleChunks |
| Chunker.ChunksCount | backend1/app/rag_engine.py:101-103 | there are ceil(\|text\|/900) chunks |
| Chunker.ChunkAt | backend1/app/rag_engine.py:101-103 | chunk k is `text[900k .. min(900k+1000, \|text\|)]` and starts inside the text |
| Chunker.ChunksShape | backend1/app/rag_engine.py:97-103 | the count and the window of every chunk together |
| Chunker.ChunkText | backend1/app/rag_engine.py:96-103 | the append loop over `range(0, len(text), 900)` produces exactly `Chunks(text)` |
| Chunker.ChunkBounds | backend1/app/rag_engine.py:102 | every chunk is non-empty and at most 1000 characters |
| Chunker.ChunksNonEmpty | backend1/app/rag_engine.py:101-106 | there are no chunks exactly when the text is empty |
| Chunker.LastChunkEndsText | backend1/app/rag_engine.py:101-102 | the last chunk is the suffix from its start and is at most 900 long |
| Chunker.ShortLastChunkIsRedundant | backend1/app/rag_engine.py:101-102 | a last chunk of at most 100 characters is the tail of the previous chunk, which already reaches the end |
| Chunker.ConsecutiveChunksOverlap | backend1/app/rag_engine.py:97-102 | what chunk k holds past its first 900 characters is the beginning of chunk k+1 |
| Chunker.ReassembleChunks | backend1/app/rag_engine.py:101-103 | the first 900 characters of each chunk but the last, then the last chunk, give back the text |
| Extractor.KindOf | backend1/app/rag_engine.py:79-85 | the `if/elif` dispatch: `.pdf`, the three image extensions, `.txt`, each exactly |
| Extractor.PagesText | backend1/app/rag_engine.py:31-36 | definition of the PDF text; properties in Extractor.PdfText and Extractor.PagesTextBlank |
| Extractor.PdfText | backend1/app/rag_engine.py:31-36 | the `text +=` loop over the pages yields `PagesText(pages)` |
| Extractor.PagesTextBlank | backend1/app/rag_engine.py:31-36 | a PDF's text is blank exactly when every page's text is |
| Extractor.OcrSentinelsNotBlank | backend1/app/rag_engine.py:59-64 | the two OCR sentinels are never blank and end in `]` |
| Extractor.ImageText | backend1/app/rag_engine.py:54-64 | definition of `extract_text_from_image`: the recognised text or a sentinel, never an exception; properties in Extractor.OcrSentinelsNotBlank |
| Extractor.TranslateNewlines | backend1/app/rag_engine.py:84-85 | text-mode reading never yields `\r` and does not lengthen the text |
| Extractor.TranslateNewlinesIdentity | backend1/app/rag_engine.py:84-85 | a file without `\r` is read verbatim |
| Extractor.TranslateNewlinesBlank | backend1/app/rag_engine.py:84-89 | newline translation preserves blankness in both directions |
| Extractor.ExtractText | backend1/app/rag_engine.py:76-85 | images and unknown extensions never raise, an unknown one extracts ""; any error is that of the PDF or UTF-8 reader picked by the extension |
| Extractor.FallbackText | backend1/app/rag_engine.py:89-94 | definition of the fallback text; properties in Extractor.IndexedText |
| Extractor.IndexedText | backend1/app/rag_engine.py:89-94 | the indexed text is never blank: the extracted text if not blank, else the filename fallback |
| VectorStore.BatchMap | backend1/app/rag_engine.py:116-120 | the added table's keys are the batch ids |
| VectorStore.BatchMapAt | backend1/app/rag_engine.py:116-120 | with distinct ids, each batch entry is stored under its id |
| VectorStore.ApplyAdd | backend1/app/rag_engine.py:116-120 | an add that raises changes nothing; a successful one adds exactly the batch ids and keeps every other entry |
| VectorStore.AddFreshBatch | backend1/app/rag_engine.py:116-120 | with fresh distinct ids the add succeeds under every policy and is the union |
| VectorStore.AddFreshBatchAt | backend1/app/rag_engine.py:116-120 | after such an add each entry is found under its id |
| VectorStore.AddFreshBatchSize | backend1/app/rag_engine.py:116-120 | the collection grows by exactly the batch size |
| VectorStore.FreshBatchFacts | backend1/app/rag_engine.py:116-120 | keys, old entries kept, new entries and size after an add of fresh ids |
| VectorStore.DistinctIdsCount | backend1/app/rag_engine.py:110 | a batch of distinct ids has as many ids as entries |
| VectorStore.DeleteDoc | backend1/app/rag_engine.py:127-129 | definition of delete by `doc_id`; properties in VectorStore.DeleteDocExact and VectorStore.DeleteDocIdempotent |
| VectorStore.DeleteDocExact | backend1/app/rag_engine.py:127-129 | delete by `doc_id` leaves no entry with that id and keeps every other entry unchanged |
| VectorStore.DeleteDocIdempotent | backend1/app/rag_engine.py:127-129 | deleting twice equals deleting once; deletes of two documents commute |
| VectorStore.Matching | backend1/app/rag_engine.py:146-150 | every match is a stored entry whose `doc_id` passes the filter; no more matches than ranked ids |
| VectorStore.MatchingComplete | backend1/app/rag_engine.py:146-150 | every ranked stored entry that passes the filter is matched |
| VectorStore.MatchingSeesOnlyAllowed | backend1/app/rag_engine.py:146-150 | collections that agree on the entries passing the filter give the same matches |
| VectorStore.Retrieve | backend1/app/rag_engine.py:146-150 | definition of the filtered, limited query; properties in VectorStore.RetrieveSound and VectorStore.RetrieveAfterDelete |
| VectorStore.RetrieveSound | backend1/app/rag_engine.py:146-150 | at most `n` results, all passing the filter; fewer than `n` only when nothing else passes |
| VectorStore.RetrieveAfterDelete | backend1/app/rag_engine.py:127-150 | after a delete no query returns an entry of that document |
| VectorStore.Store.constructor | backend1/app/rag_engine.py:26-29 | `get_or_create_collection`: the collection holds what was persisted before (nothing on the first start), with the given policy |
| VectorStore.Store.Add | backend1/app/rag_engine.py:116-120 | `collection.add`: outcome and new entries are `ApplyAdd` of the old entries |
| VectorStore.Store.DeleteWhere | backend1/app/rag_engine.py:127-129 | `collection.delete(where=…)`: entries tagged `docId` removed, all others kept unchanged |
| Models.OwnedIdsExact | backend1/app/rag_engine.py:137-138 | in a well-keyed table the user's document-id set holds exactly the ids of the rows the user owns |
| Models.OwnedIds | backend1/app/rag_engine.py:137-138 | definition of the user's document ids; properties in Models.OwnedIdsExact |
| RagEngine.ChunkId | backend1/app/rag_engine.py:110 | definition of the entry id; properties in RagEngine.ChunkIdInjective |
| RagEngine.ChunkIdInjective | backend1/app/rag_engine.py:110 | `doc_{d}_chunk_{i}` determines both `d` and `i` |
| RagEngine.Process | backend1/app/rag_engine.py:66-121 | definition of what `process_document` raises and leaves in the collection; properties in RagEngine.ProcessIndexesChunks, RagEngine.ProcessTouchesOnlyItsIds and RagEngine.ProcessWithoutText |
| RagEngine.ChunkBatch | backend1/app/rag_engine.py:110-111 | one entry per chunk in order, each tagged `doc_id = d`; the ids are pairwise distinct and are exactly `doc_{d}_chunk_i` for the chunk indexes |
| RagEngine.ProcessDocument | backend1/app/rag_engine.py:66-121 | `process_document`: its outcome and the new collection are `Process` of the old collection |
| RagEngine.ProcessWithoutText | backend1/app/rag_engine.py:72-74 | a missing file, or a reader that raises, adds nothing; a missing file returns normally |
| RagEngine.ExistingFileHasChunks | backend1/app/rag_engine.py:89-106 | a file whose reader does not raise always yields at least one chunk, so the `if not chunks` guard never fires |
| RagEngine.ProcessIndexesChunks | backend1/app/rag_engine.py:72-120 | indexing a readable file with fresh ids adds exactly its n >= 1 chunks under `doc_{d}_chunk_0..n-1`, tagged `d`, and nothing else |
| RagEngine.ChunkBatchAdded | backend1/app/rag_engine.py:110-120 | for a document none of whose chunk ids is in the collection yet (as after an upload, Documents.NewDocHasNoEntries), after the add each chunk sits under its id, old entries are kept, the size grows by n |
| RagEngine.ChunkBatchKeys | backend1/app/rag_engine.py:110-120 | the keys after the add are the old keys plus `doc_{d}_chunk_i` for each chunk index |
| RagEngine.ProcessFreshFile | backend1/app/rag_engine.py:110-120 | a readable file with fresh ids is added as one batch, under every policy |
| RagEngine.ProcessTouchesOnlyItsIds | backend1/app/rag_engine.py:66-121 | for a document none of whose chunk ids is in the collection yet (as after an upload, Documents.NewDocHasNoEntries), whatever the file, policy or embedding outcome, indexing changes no existing entry and adds only entries under its own chunk ids |
| RagEngine.ChunkBatchAddsOnlyItsIds | backend1/app/rag_engine.py:110-120 | adding a document's batch under fresh ids keeps every old entry and adds only entries under that document's ids, tagged with it |
| RagEngine.ProcessEmbedFailure | backend1/app/rag_engine.py:116-120 | a failing embedding raises its reason and adds nothing |
| RagEngine.DeleteDocumentEmbeddings | backend1/app/rag_engine.py:123-129 | the new collection is the old one without the entries tagged `docId` |
| RagEngine.KeyMissing | backend1/app/rag_engine.py:161 | definition of the key check; properties in RagEngine.QueryWithoutKey |
| RagEngine.Texts | backend1/app/rag_engine.py:156 | definition of `results['documents'][0]`; properties in RagEngine.PromptHoldsHits |
| RagEngine.Context | backend1/app/rag_engine.py:156-157 | definition of the `"\n\n"`-joined context; properties in RagEngine.PromptHoldsHits |
| RagEngine.Prompt | backend1/app/rag_engine.py:170-183 | definition of the prompt f-string; properties in RagEngine.PromptHoldsHits |
| RagEngine.QueryRag | backend1/app/rag_engine.py:131-188 | definition of `query_rag`'s answer; properties in RagEngine.QueryWithoutDocuments, QueryWithoutKey, QueryAnswers, UserHitsIsolated and QueryRagIsolated |
| RagEngine.QueryWithoutDocuments | backend1/app/rag_engine.py:137-144 | a user without documents gets the fixed message, whatever the collection, ranking, key or generator |
| RagEngine.QueryWithoutKey | backend1/app/rag_engine.py:160-162 | an absent, empty or placeholder key gives the fixed message, whatever the generator |
| RagEngine.QueryAnswers | backend1/app/rag_engine.py:167-188 | with documents and a key, the answer is the generated text or the error prefix followed by the reason |
| RagEngine.UserHits | backend1/app/rag_engine.py:137-150 | definition of the owner-filtered query; properties in RagEngine.UserHitsIsolated and RagEngine.QueryRagIsolated |
| RagEngine.UserHitsIsolated | backend1/app/rag_engine.py:137-150 | every retrieved chunk is a stored entry of a document the user owns, and there are at most `n` |
| RagEngine.QueryRagIsolated | backend1/app/rag_engine.py:137-150 | collections that agree on the entries of the user's documents give the user the same answer |
| RagEngine.QueryAfterOtherDelete | backend1/app/rag_engine.py:123-150 | deleting the embeddings of a document the user does not own does not change the user's answer |
| RagEngine.QueryAfterOtherProcess | backend1/app/rag_engine.py:66-150 | for a document none of whose chunk ids is in the collection yet (as after an upload, Documents.NewDocHasNoEntries), indexing a document the user does not own, whatever it raises, does not change the user's answer |
| RagEngine.PromptHoldsHits | backend1/app/rag_engine.py:156-183 | the prompt holds every retrieved chunk verbatim at its place in the `"\n\n"`-joined context |
| Documents.AllowedIsExtractable | backend1/app/routers/documents.py:44 | the whitelist is exactly the set of extensions that some extraction branch handles |
| Documents.WhitelistShape | backend1/app/routers/documents.py:44 | every whitelisted extension is a dot followed by lower-case letters only |
| Documents.AllowedExtension | backend1/app/routers/documents.py:44 | definition of the whitelist; properties in Documents.AllowedIsExtractable and Documents.WhitelistShape |
| Documents.StoredPath | backend1/app/routers/documents.py:48-49 | definition of the stored path; properties in Documents.StoredPathKeepsExtension |
| Documents.IsUuidText | backend1/app/routers/documents.py:48 | definition of the shape of `str(uuid.uuid4())`; properties in Documents.StoredPathKeepsExtension |
| Documents.StoredPathKeepsExtension | backend1/app/routers/documents.py:43-49 | the stored path's lower-cased extension is the validated one, so extraction never takes the unsupported branch |
| Documents.OwnedDocs | backend1/app/routers/documents.py:81 | definition of the listing query; properties in Documents.DocumentService.Listing, ListingAfterInsert and ListingAfterRemove |
| Documents.ListingAfterInsert | backend1/app/routers/documents.py:55-65 | a new row joins its owner's listing and no one else's |
| Documents.ListingAfterRemove | backend1/app/routers/documents.py:98-99 | removing a row takes exactly that document out of the listings |
| Documents.NewDocHasNoEntries | backend1/app/routers/documents.py:63-69 | in a consistent state a new document id has no entry yet |
| Documents.UploadKeepsConsistent | backend1/app/routers/documents.py:55-74 | inserting the row and then indexing, whatever it raises, keeps table and collection consistent |
| Documents.DeleteKeepsConsistent | backend1/app/routers/documents.py:98-102 | removing the row and its entries keeps consistency and leaves no entry tagged with it |
| Documents.DocumentService.constructor | backend1/app/routers/documents.py:16-18 | start-up reuses the table, the `uploaded_files` directory and the collection that earlier runs left; from a consistent persisted state the service is consistent |
| Documents.DocumentService.Listing | backend1/app/routers/documents.py:76-81 | `get_documents`: a document is listed exactly when it is a row whose `user_id` is the user's |
| Documents.DocumentService.Upload | backend1/app/routers/documents.py:31-74 | a rejected extension raises 400 and changes nothing; otherwise the file is written, a row owned by the uploader is created and returned whatever indexing raises, and the collection is `Process` of the old one (a readable file is indexed); consistency kept |
| Documents.DocumentService.Delete | backend1/app/routers/documents.py:83-104 | a missing or foreign document raises 404 and changes nothing; otherwise the file, the row and every entry tagged with it are removed, the owner's listing excludes it; consistency kept |

## Left out

- Embeddings and nearest-neighbour ranking (the SentenceTransformer model, Chroma's distances) are floating-point and foreign code. A query receives the collection's ids in ranking order as an uninterpreted sequence.
- What `collection.add` does with an id that already exists is defined by the library. It is the `OnExisting` parameter of the store (overwrite, ignore or reject), not a fixed upsert.
- A failing embedding call is an optional reason passed to `add`. When one is given, the add raises and changes nothing.
- Exceptions raised by `collection.query` and `collection.delete` are not modelled, and neither is Chroma's validation of `n_results`.
- pypdf, Pillow and pytesseract are foreign libraries. The model takes their outcomes for a stored file as a given record: each page's text or the reader's error, the OCR outcome, and the UTF-8 decode result.
- The probing of Tesseract install locations is filesystem I/O and is not modelled.
- The Gemini client is a network call. It is a function parameter that returns a text or a failure reason. The model name is not modelled.
- RagEngine.QueryRag: `import google.generativeai` and `genai.configure` (rag_engine.py:164-165) run outside the `try`, so an exception from either propagates out of `query_rag`. QueryRag returns an answer for every input and does not model that exception.
- The environment variable `GEMINI_API_KEY` is a parameter.
- The random `uuid4` name and the primary key assigned by the database are parameters. The key is required to be absent from the table, as a primary key is.
- The upload directory is a map from path to the stored file's reader outcomes. Copying the bytes and `os.makedirs` are not modelled.
- `upload_date` is a clock reading and is left out of the document record.
- The debug `print` calls and the logging of a swallowed indexing error are not modelled.
- Authentication (JWT, password hashing), FastAPI routing, CORS and response schemas are not modelled.
- The frontend and the operational scripts are not part of this model.
- Concurrent requests are not modelled. Every operation is one sequential step.
- Text.Lower: lower-cases ASCII letters only. Python's `str.lower` also maps non-ASCII letters, which can matter only for extension comparisons with non-ASCII characters, and none of the accepted extensions holds any.
- Paths follow POSIX `os.path`, with `/` the only separator. Windows drive letters and `\` separators are not modelled.
- `get_documents` returns a list in database order. `Documents.DocumentService.Listing` returns it as a set.
- The unreachable `if not chunks: return` guard is not written as a branch. `RagEngine.ExistingFileHasChunks` proves it never fires.
- Documents.DocumentService.constructor: the table, the directory and the collection that earlier runs persisted are taken to be `Consistent`, as the routes leave them. A persisted state damaged outside the routes is not modelled.
- RagEngine.QueryRag: `n_results` defaults to 3 in `query_rag` (rag_engine.py:131), and the chat route relies on that default. QueryRag takes the limit `n` as an explicit argument, and nothing fixes it at 3.
- Documents.DocumentService.Upload and Documents.DocumentService.Delete: failures of the file write (documents.py:51-52), of `db.commit` (documents.py:64, 99) and of `os.remove` (documents.py:95) raise out of the routes in the source. The model treats these as I/O that always succeeds, so Upload and Delete always complete.
