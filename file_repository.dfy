/** The finders of the file table: newest first per uploader, per
    document and for an uploader's unattached files, and a name check. */
module FileRepository {
  import opened Common
  import opened Seqs
  import opened Records

  function CreatedAtKey(f: FileRecord): int {
    f.createdAt
  }

  function OwnedBy(user: Id): FileRecord -> bool {
    (f: FileRecord) => f.owner == user
  }

  function AttachedTo(document: Id): FileRecord -> bool {
    (f: FileRecord) => f.document == Some(document)
  }

  function OwnedUnattached(user: Id): FileRecord -> bool {
    (f: FileRecord) => f.owner == user && f.document.None?
  }

  function Unattached(): FileRecord -> bool {
    (f: FileRecord) => f.document.None?
  }

  function WithId(id: Id): FileRecord -> bool {
    (f: FileRecord) => f.id == id
  }

  function Named(fileName: string): FileRecord -> bool {
    (f: FileRecord) => f.fileName == fileName
  }

  /** `findById`: the position of the record with this id. */
  function FindById(files: seq<FileRecord>, id: Id): (r: Option<nat>)
    ensures r.Some? ==> r.value < |files| && files[r.value].id == id
    ensures r.None? <==> forall j :: 0 <= j < |files| ==> files[j].id != id
  {
    FirstIndex(files, WithId(id))
  }

  /** `findByUserOrderByCreatedAtDesc`. */
  function FindByUserOrderByCreatedAtDesc(files: seq<FileRecord>, user: Id): (r: seq<FileRecord>)
    ensures forall f :: f in r <==> f in files && f.owner == user
    ensures forall i, j :: 0 <= i < j < |r| ==> r[i].createdAt >= r[j].createdAt
    ensures multiset(r) == multiset(Filter(files, OwnedBy(user)))
  {
    SortDesc(Filter(files, OwnedBy(user)), CreatedAtKey)
  }

  /** `findByDocumentOrderByCreatedAtDesc`. */
  function FindByDocumentOrderByCreatedAtDesc(files: seq<FileRecord>, document: Id): (r: seq<FileRecord>)
    ensures forall f :: f in r <==> f in files && f.document == Some(document)
    ensures forall i, j :: 0 <= i < j < |r| ==> r[i].createdAt >= r[j].createdAt
    ensures multiset(r) == multiset(Filter(files, AttachedTo(document)))
  {
    SortDesc(Filter(files, AttachedTo(document)), CreatedAtKey)
  }

  /** `findByUserAndDocumentIsNullOrderByCreatedAtDesc`. */
  function FindByUserAndDocumentIsNullOrderByCreatedAtDesc(files: seq<FileRecord>, user: Id): (r: seq<FileRecord>)
    ensures forall f :: f in r <==> f in files && f.owner == user && f.document.None?
    ensures forall i, j :: 0 <= i < j < |r| ==> r[i].createdAt >= r[j].createdAt
    ensures multiset(r) == multiset(Filter(files, OwnedUnattached(user)))
  {
    SortDesc(Filter(files, OwnedUnattached(user)), CreatedAtKey)
  }

  /** The unattached list holds exactly the uploader's records without a
      document; before ordering, it is the uploader's rows filtered once more. */
  lemma {:induction false} UnattachedFiltersUserList(files: seq<FileRecord>, user: Id)
    ensures forall f :: f in FindByUserAndDocumentIsNullOrderByCreatedAtDesc(files, user) <==>
      f in FindByUserOrderByCreatedAtDesc(files, user) && f.document.None?
    ensures Filter(files, OwnedUnattached(user)) == Filter(Filter(files, OwnedBy(user)), Unattached())
  {
    if files != [] {
      UnattachedFiltersUserList(files[1..], user);
      var rest := Filter(files[1..], OwnedBy(user));
      if files[0].owner == user {
        var mine := [files[0]] + rest;
        assert Filter(files, OwnedBy(user)) == mine;
        assert mine[0] == files[0] && mine[1..] == rest;
      } else {
        assert Filter(files, OwnedBy(user)) == rest;
      }
    }
  }

  /** `existsByFileName`. */
  function ExistsByFileName(files: seq<FileRecord>, fileName: string): (b: bool)
    ensures b <==> exists f :: f in files && f.fileName == fileName
  {
    match FirstIndex(files, Named(fileName))
    case None => false
    case Some(i) => assert files[i] in files; true
  }
}
