/** The `documents` table of the relational store. */
module Models {
  import opened Wrappers

  /** One row: the fields of the SQLAlchemy model; `upload_date` (a clock
      reading) is left out. */
  datatype Document = Document(
    id: int,
    userId: int,
    filename: string,
    filePath: string,
    category: Option<string>,
    description: Option<string>,
    metadataInfo: Option<string>)

  /** The table, keyed by primary key. */
  type Table = map<int, Document>

  /** Every row sits under its own primary key. */
  ghost predicate WellKeyed(docs: Table)
  {
    forall k :: k in docs ==> docs[k].id == k
  }

  /** `[doc.id for doc in db.query(Document).filter(Document.user_id == userId)]`, as a set. */
  function OwnedIds(docs: Table, userId: int): set<int>
  {
    set k | k in docs && docs[k].userId == userId :: docs[k].id
  }

  /** In a well-keyed table, a document id is owned by a user exactly when
      that user's row holds it. */
  lemma OwnedIdsExact(docs: Table, userId: int, d: int)
    requires WellKeyed(docs)
    ensures d in OwnedIds(docs, userId) <==> d in docs && docs[d].userId == userId
  {
    if d in docs && docs[d].userId == userId {
      assert docs[d].id == d;
    }
  }
}
