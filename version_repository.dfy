/** The finders of the version table: a document's history from the
    newest number down, its newest version, and its length. */
module DocumentVersionRepository {
  import opened Common
  import opened Seqs
  import opened Records

  function VersionNumberKey(v: VersionRecord): int {
    v.versionNumber
  }

  function OfDocument(document: Id): VersionRecord -> bool {
    (v: VersionRecord) => v.document == document
  }

  function WithId(id: Id): VersionRecord -> bool {
    (v: VersionRecord) => v.id == id
  }

  /** `findById`. */
  function FindById(versions: seq<VersionRecord>, id: Id): (r: Option<VersionRecord>)
    ensures r.Some? ==> r.value in versions && r.value.id == id
    ensures r.None? <==> forall v :: v in versions ==> v.id != id
  {
    match FirstIndex(versions, WithId(id))
    case None => None
    case Some(i) => Some(versions[i])
  }

  /** `findByDocumentOrderByVersionNumberDesc`. */
  function FindByDocumentOrderByVersionNumberDesc(versions: seq<VersionRecord>, document: Id): (r: seq<VersionRecord>)
    ensures forall v :: v in r <==> v in versions && v.document == document
    ensures forall i, j :: 0 <= i < j < |r| ==> r[i].versionNumber >= r[j].versionNumber
    ensures multiset(r) == multiset(Filter(versions, OfDocument(document)))
  {
    SortDesc(Filter(versions, OfDocument(document)), VersionNumberKey)
  }

  /** `findTopByDocumentOrderByVersionNumberDesc`: the first row of the
      ordered history, null when the document has none. */
  function FindTopByDocumentOrderByVersionNumberDesc(versions: seq<VersionRecord>, document: Id): (r: Option<VersionRecord>)
    ensures r.None? <==> forall v :: v in versions ==> v.document != document
    ensures r.Some? ==> r.value in versions && r.value.document == document
    ensures r.Some? ==> forall v :: v in versions && v.document == document ==> v.versionNumber <= r.value.versionNumber
    ensures r.Some? ==> r.value == FindByDocumentOrderByVersionNumberDesc(versions, document)[0]
  {
    var history := FindByDocumentOrderByVersionNumberDesc(versions, document);
    if history == [] then None
    else
      HeadIsMaximal(history, VersionNumberKey);
      Some(history[0])
  }

  /** `countByDocument`. */
  function CountByDocument(versions: seq<VersionRecord>, document: Id): (n: nat)
    ensures n == |FindByDocumentOrderByVersionNumberDesc(versions, document)|
    ensures n == 0 <==> forall v :: v in versions ==> v.document != document
  {
    var history := Filter(versions, OfDocument(document));
    assert |SortDesc(history, VersionNumberKey)| == |history|;
    assert history != [] ==> history[0] in history;
    |history|
  }
}
