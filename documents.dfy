/** The `/documents` routes: upload with the extension whitelist and the
    stored-name construction, the owner-scoped listing, and the owner-checked
    delete, over the document table, the upload directory and the collection. */
module Documents {
  import opened Wrappers
  import opened Text
  import opened Extractor
  import opened VectorStore
  import opened Models
  import opened RagEngine

  /** An `HTTPException`: status code and detail. */
  datatype HttpError = HttpError(status: nat, detail: string)

  const InvalidTypeError: HttpError := HttpError(400, "Invalid file type")
  const NotFoundError: HttpError := HttpError(404, "Document not found")
  const DeletedMessage: string := "Document deleted"
  const UploadDir: string := "uploaded_files"

  /** The whitelist of `upload_document`, applied to the lower-cased extension. */
  predicate AllowedExtension(ext: string)
  {
    ext in [".pdf", ".png", ".jpg", ".jpeg", ".txt"]
  }

  /** `str(uuid.uuid4())`: 36 lower-case hexadecimal digits and dashes. */
  predicate IsUuidText(u: string)
  {
    |u| == 36 && forall i :: 0 <= i < |u| ==> ('0' <= u[i] <= '9' || 'a' <= u[i] <= 'f' || u[i] == '-')
  }

  /** `os.path.join(UPLOAD_DIR, f"{uuid}{file_ext}")`. */
  function StoredPath(uuid: string, ext: string): string
  {
    JoinPath(UploadDir, uuid + ext)
  }

  lemma LowerOfLower(s: string)
    requires forall i :: 0 <= i < |s| ==> !('A' <= s[i] <= 'Z')
    ensures Lower(s) == s
  {
  }

  /** The whitelist holds exactly the extensions that one of the extraction
      branches handles. */
  lemma AllowedIsExtractable(ext: string)
    ensures AllowedExtension(ext) <==> KindOf(ext) != Unsupported
  {
  }

  /** The stored file keeps the validated extension, so `process_document`
      dispatches an accepted upload to the reader of its type, never to the
      branch that extracts nothing. */
  lemma StoredPathKeepsExtension(filename: string, uuid: string)
    requires AllowedExtension(LowerExt(filename))
    requires IsUuidText(uuid)
    ensures var ext := LowerExt(filename);
      LowerExt(StoredPath(uuid, ext)) == ext && KindOf(ext) != Unsupported
  {
    var ext := LowerExt(filename);
    WhitelistShape(ext);
    assert '.' !in uuid && '/' !in uuid by {
      forall i | 0 <= i < |uuid| ensures uuid[i] != '.' && uuid[i] != '/' { }
    }
    ExtOfJoinedName(UploadDir, uuid, ext);
    LowerOfLower(ext);
    AllowedIsExtractable(ext);
  }

  /** Every whitelisted extension is a dot followed by lower-case letters. */
  lemma WhitelistShape(ext: string)
    requires AllowedExtension(ext)
    ensures ext != [] && ext[0] == '.' && '.' !in ext[1..] && '/' !in ext
    ensures forall i :: 0 <= i < |ext| ==> !('A' <= ext[i] <= 'Z')
  {
    if ext == ".pdf" {
    } else if ext == ".png" {
    } else if ext == ".jpg" {
    } else if ext == ".jpeg" {
    } else {
      assert ext == ".txt";
    }
  }

  // ---------------------------------------------------------------------------
  // Listing
  // ---------------------------------------------------------------------------

  /** `db.query(Document).filter(Document.user_id == userId).all()`, as a set. */
  function OwnedDocs(docs: Table, userId: int): set<Document>
  {
    set k | k in docs && docs[k].userId == userId :: docs[k]
  }

  /** A new record appears in its owner's listing and in no one else's. */
  lemma ListingAfterInsert(docs: Table, doc: Document, userId: int)
    requires doc.id !in docs
    ensures doc.userId == userId ==> OwnedDocs(docs[doc.id := doc], userId) == OwnedDocs(docs, userId) + {doc}
    ensures doc.userId != userId ==> OwnedDocs(docs[doc.id := doc], userId) == OwnedDocs(docs, userId)
  {
    var docs' := docs[doc.id := doc];
    var before, after := OwnedDocs(docs, userId), OwnedDocs(docs', userId);
    assert after == before + (if doc.userId == userId then {doc} else {}) by {
      forall x | x in after ensures x in before || (x == doc && doc.userId == userId) {
        var k :| k in docs' && docs'[k].userId == userId && docs'[k] == x;
        if k != doc.id { assert docs[k] == x; }
      }
      forall x | x in before ensures x in after {
        var k :| k in docs && docs[k].userId == userId && docs[k] == x;
        assert docs'[k] == x;
      }
      if doc.userId == userId { assert docs'[doc.id] == doc; }
    }
  }

  /** Removing a record takes exactly it out of the listings. */
  lemma ListingAfterRemove(docs: Table, d: int, userId: int)
    requires WellKeyed(docs) && d in docs
    ensures docs[d] !in OwnedDocs(docs - {d}, userId)
    ensures OwnedDocs(docs - {d}, userId) == OwnedDocs(docs, userId) - {docs[d]}
  {
    var docs' := docs - {d};
    var before, after := OwnedDocs(docs, userId), OwnedDocs(docs', userId);
    assert after == before - {docs[d]} by {
      forall x | x in after ensures x in before && x != docs[d] {
        var k :| k in docs' && docs'[k].userId == userId && docs'[k] == x;
        assert docs[k].id == k && docs[d].id == d;
      }
      forall x | x in before && x != docs[d] ensures x in after {
        var k :| k in docs && docs[k].userId == userId && docs[k] == x;
        assert k != d && docs'[k] == x;
      }
    }
  }

  // ---------------------------------------------------------------------------
  // Consistency of the table and the collection
  // ---------------------------------------------------------------------------

  /** Every entry belongs to a stored document. */
  ghost predicate NoOrphans(docs: Table, entries: map<string, Entry>)
  {
    forall k :: k in entries ==> entries[k].docId in docs
  }

  /** Every entry sits under a chunk id of the document it is tagged with. */
  ghost predicate TaggedByKey(entries: map<string, Entry>)
  {
    forall k :: k in entries ==> exists i: nat :: k == ChunkId(entries[k].docId, i)
  }

  ghost predicate Consistent(docs: Table, entries: map<string, Entry>)
  {
    WellKeyed(docs) && NoOrphans(docs, entries) && TaggedByKey(entries)
  }

  /** A document id not in the table has no entry yet, so its chunks are indexed
      under fresh ids. */
  lemma NewDocHasNoEntries(docs: Table, entries: map<string, Entry>, d: int)
    requires Consistent(docs, entries) && d !in docs
    ensures forall i: nat :: ChunkId(d, i) !in entries
  {
    forall i: nat | ChunkId(d, i) in entries ensures false {
      var k := ChunkId(d, i);
      var j: nat :| k == ChunkId(entries[k].docId, j);
      ChunkIdInjective(d, i, entries[k].docId, j);
    }
  }

  /** Indexing a new document, whatever it raises, keeps the table and the
      collection consistent. */
  lemma UploadKeepsConsistent(docs: Table, entries: map<string, Entry>, policy: OnExisting, doc: Document,
                              files: map<string, StoredFile>, embedFailure: Option<string>)
    requires Consistent(docs, entries) && doc.id !in docs
    ensures Consistent(docs[doc.id := doc], Process(entries, policy, doc.id, doc.filePath, files, embedFailure).1)
  {
    NewDocHasNoEntries(docs, entries, doc.id);
    ProcessTouchesOnlyItsIds(entries, policy, doc.id, doc.filePath, files, embedFailure);
    var docs' := docs[doc.id := doc];
    var m := Process(entries, policy, doc.id, doc.filePath, files, embedFailure).1;
    forall k | k in m ensures m[k].docId in docs' && exists i: nat :: k == ChunkId(m[k].docId, i) {
      if k in entries {
        var i: nat :| k == ChunkId(entries[k].docId, i);
      }
    }
  }

  /** Deleting a record together with its entries keeps the table and the
      collection consistent, and leaves no entry tagged with it. */
  lemma DeleteKeepsConsistent(docs: Table, entries: map<string, Entry>, d: int)
    requires Consistent(docs, entries)
    ensures Consistent(docs - {d}, DeleteDoc(entries, d))
    ensures forall k :: k in DeleteDoc(entries, d) ==> DeleteDoc(entries, d)[k].docId != d
  {
    var m := DeleteDoc(entries, d);
    forall k | k in m ensures exists i: nat :: k == ChunkId(m[k].docId, i) {
      var i: nat :| k == ChunkId(entries[k].docId, i);
    }
  }

  // ---------------------------------------------------------------------------
  // The service
  // ---------------------------------------------------------------------------

  /** The document table, the upload directory and the collection. */
  class DocumentService {
    var docs: Table
    var files: map<string, StoredFile>
    const store: Store

    ghost predicate Valid()
      reads this, store
    {
      Consistent(docs, store.entries)
    }

    /** The service at start-up: the table, the `uploaded_files` directory and
        the collection as earlier runs left them (all empty on the first run). */
    constructor (policy: OnExisting, table: Table, stored: map<string, StoredFile>, persisted: map<string, Entry>)
      requires Consistent(table, persisted)
      ensures Valid()
      ensures docs == table && files == stored && store.entries == persisted && store.onExisting == policy
      ensures fresh(store)
    {
      docs := table;
      files := stored;
      store := new Store(policy, persisted);
    }

    /** GET `/documents/`. */
    function Listing(userId: int): (r: set<Document>)
      reads this
      ensures forall d :: d in r <==> (exists k :: k in docs && docs[k] == d) && d.userId == userId
    {
      OwnedDocs(docs, userId)
    }

    /** POST `/documents/upload`. `uuid` is the random name chosen for the
        stored file, `newId` the primary key the table assigns, `content` what
        the readers make of the uploaded bytes and `embedFailure` the reason the
        embedding fails, if it does. Indexing errors are swallowed. */
    method Upload(userId: int, filename: string, category: Option<string>, description: Option<string>,
                  metadataInfo: Option<string>, uuid: string, newId: int, content: StoredFile,
                  embedFailure: Option<string>) returns (r: Result<Document, HttpError>)
      requires Valid()
      requires IsUuidText(uuid) && newId !in docs
      modifies this, store
      ensures Valid()
      ensures !AllowedExtension(LowerExt(filename)) ==>
        && r == Err(InvalidTypeError)
        && docs == old(docs) && files == old(files) && store.entries == old(store.entries)
      ensures AllowedExtension(LowerExt(filename)) ==>
        var path := StoredPath(uuid, LowerExt(filename));
        var doc := Document(newId, userId, filename, path, category, description, metadataInfo);
        && r == Ok(doc)
        && files == old(files)[path := content]
        && docs == old(docs)[newId := doc]
        && store.entries == Process(old(store.entries), store.onExisting, newId, path, files, embedFailure).1
        && (embedFailure == None && ExtractText(LowerExt(filename), content).Ok? ==>
              ChunkId(newId, 0) in store.entries && store.entries[ChunkId(newId, 0)].docId == newId)
    {
      var ext := LowerExt(filename);
      if !AllowedExtension(ext) {
        return Err(InvalidTypeError);
      }
      var path := StoredPath(uuid, ext);
      files := files[path := content];
      var doc := Document(newId, userId, filename, path, category, description, metadataInfo);
      StoredPathKeepsExtension(filename, uuid);
      NewDocHasNoEntries(docs, store.entries, newId);
      if embedFailure == None && ExtractText(ext, content).Ok? {
        ProcessIndexesChunks(store.entries, store.onExisting, newId, path, files, ExtractText(ext, content).value);
      }
      UploadKeepsConsistent(docs, store.entries, store.onExisting, doc, files, embedFailure);
      docs := docs[newId := doc];
      var _ := ProcessDocument(store, newId, path, files, embedFailure);
      r := Ok(doc);
    }

    /** DELETE `/documents/{docId}`. */
    method Delete(userId: int, docId: int) returns (r: Result<string, HttpError>)
      requires Valid()
      modifies this, store
      ensures Valid()
      ensures !(docId in old(docs) && old(docs)[docId].userId == userId) ==>
        && r == Err(NotFoundError)
        && docs == old(docs) && files == old(files) && store.entries == old(store.entries)
      ensures docId in old(docs) && old(docs)[docId].userId == userId ==>
        && r == Ok(DeletedMessage)
        && docs == old(docs) - {docId}
        && files == old(files) - {old(docs)[docId].filePath}
        && store.entries == DeleteDoc(old(store.entries), docId)
        && old(docs)[docId] !in Listing(userId)
        && forall k :: k in store.entries ==> store.entries[k].docId != docId
    {
      if !(docId in docs && docs[docId].userId == userId) {
        return Err(NotFoundError);
      }
      var doc := docs[docId];
      if doc.filePath in files {
        files := files - {doc.filePath};
      }
      ListingAfterRemove(docs, docId, userId);
      DeleteKeepsConsistent(docs, store.entries, docId);
      docs := docs - {docId};
      DeleteDocumentEmbeddings(store, docId);
      r := Ok(DeletedMessage);
    }
  }
}
