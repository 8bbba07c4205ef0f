/** The derived and hand-written finders of the documents table. Every
    listing and search goes through the soft-delete filter `!isDeleted`;
    `FindById` (inherited from `JpaRepository`) does not. */
module DocumentRepository {
  import opened Common
  import opened Seqs
  import opened DocumentEntity

  /** `updatedAt` as a sort key; a null, which no saved row has, sorts last. */
  function UpdatedAtKey(d: DocumentRecord): int {
    match d.updatedAt
    case Some(t) => t
    case None => -1
  }

  function WithId(id: Id): DocumentRecord -> bool {
    (d: DocumentRecord) => d.id == Some(id)
  }

  function LiveWithId(id: Id): DocumentRecord -> bool {
    (d: DocumentRecord) => d.id == Some(id) && !d.isDeleted
  }

  function OwnedLive(user: Id): DocumentRecord -> bool {
    (d: DocumentRecord) => d.owner == user && !d.isDeleted
  }

  function PublicLive(): DocumentRecord -> bool {
    (d: DocumentRecord) => d.isPublic == Some(true) && !d.isDeleted
  }

  /** `findById`: the position of the row with this id, deleted or not. */
  function FindById(docs: seq<DocumentRecord>, id: Id): (r: Option<nat>)
    ensures r.Some? ==> r.value < |docs| && docs[r.value].id == Some(id)
    ensures r.None? <==> forall j :: 0 <= j < |docs| ==> docs[j].id != Some(id)
  {
    FirstIndex(docs, WithId(id))
  }

  /** `findByIdAndIsDeletedFalse`: present exactly when a row with this id
      exists and is not soft-deleted. */
  function FindByIdAndIsDeletedFalse(docs: seq<DocumentRecord>, id: Id): (r: Option<nat>)
    ensures r.Some? ==> r.value < |docs| && docs[r.value].id == Some(id) && !docs[r.value].isDeleted
    ensures r.None? <==> forall j :: 0 <= j < |docs| ==> docs[j].id != Some(id) || docs[j].isDeleted
  {
    FirstIndex(docs, LiveWithId(id))
  }

  /** `findByUserAndIsDeletedFalseOrderByUpdatedAtDesc`. */
  function FindByUserAndIsDeletedFalseOrderByUpdatedAtDesc(docs: seq<DocumentRecord>, user: Id): (r: seq<DocumentRecord>)
    ensures forall d :: d in r <==> d in docs && d.owner == user && !d.isDeleted
    ensures forall i, j :: 0 <= i < j < |r| ==> UpdatedAtKey(r[i]) >= UpdatedAtKey(r[j])
    ensures multiset(r) == multiset(Filter(docs, OwnedLive(user)))
  {
    SortDesc(Filter(docs, OwnedLive(user)), UpdatedAtKey)
  }

  /** `findByIsPublicTrueAndIsDeletedFalseOrderByUpdatedAtDesc`; a null
      `isPublic` is not `true`, so such rows are not listed. */
  function FindByIsPublicTrueAndIsDeletedFalseOrderByUpdatedAtDesc(docs: seq<DocumentRecord>): (r: seq<DocumentRecord>)
    ensures forall d :: d in r <==> d in docs && d.isPublic == Some(true) && !d.isDeleted
    ensures forall i, j :: 0 <= i < j < |r| ==> UpdatedAtKey(r[i]) >= UpdatedAtKey(r[j])
    ensures multiset(r) == multiset(Filter(docs, PublicLive()))
  {
    SortDesc(Filter(docs, PublicLive()), UpdatedAtKey)
  }

  function OwnedLiveTitled(user: Id, keyword: string): DocumentRecord -> bool {
    (d: DocumentRecord) => d.owner == user && Contains(d.title, keyword) && !d.isDeleted
  }

  function PublicLiveTitled(keyword: string): DocumentRecord -> bool {
    (d: DocumentRecord) => d.isPublic == Some(true) && Contains(d.title, keyword) && !d.isDeleted
  }

  /** `searchByUserAndTitle`: `title LIKE %keyword%`, read as containment. */
  function SearchByUserAndTitle(docs: seq<DocumentRecord>, user: Id, keyword: string): (r: seq<DocumentRecord>)
    ensures forall d :: d in r <==> d in docs && d.owner == user && Contains(d.title, keyword) && !d.isDeleted
  {
    Filter(docs, OwnedLiveTitled(user, keyword))
  }

  /** `searchPublicByTitle`. */
  function SearchPublicByTitle(docs: seq<DocumentRecord>, keyword: string): (r: seq<DocumentRecord>)
    ensures forall d :: d in r <==> d in docs && d.isPublic == Some(true) && Contains(d.title, keyword) && !d.isDeleted
  {
    Filter(docs, PublicLiveTitled(keyword))
  }

  /** A search hit is always in the corresponding listing: searching only
      narrows the listing, it never reaches a deleted or foreign document. */
  lemma SearchWithinListing(docs: seq<DocumentRecord>, user: Id, keyword: string)
    ensures forall d :: d in SearchByUserAndTitle(docs, user, keyword) ==>
      d in FindByUserAndIsDeletedFalseOrderByUpdatedAtDesc(docs, user)
    ensures forall d :: d in SearchPublicByTitle(docs, keyword) ==>
      d in FindByIsPublicTrueAndIsDeletedFalseOrderByUpdatedAtDesc(docs)
  {
  }

  /** The empty keyword matches every title, so the search is the listing. */
  lemma EmptyKeywordSearchIsListing(docs: seq<DocumentRecord>, user: Id)
    ensures forall d :: d in SearchByUserAndTitle(docs, user, "") <==>
      d in FindByUserAndIsDeletedFalseOrderByUpdatedAtDesc(docs, user)
  {
    forall d: DocumentRecord ensures Contains(d.title, "") {
      assert IsPrefix("", d.title);
    }
  }
}
