/** The finders of the collaborators table. `findByDocumentAndUser` returns
    an `Optional`, so Spring Data fails when two rows match the pair; the
    model keeps that third outcome. */
module DocumentCollaboratorRepository {
  import opened Common
  import opened Seqs
  import opened CollaboratorEntity

  function ForDocument(document: Id): CollaboratorRecord -> bool {
    (c: CollaboratorRecord) => c.document == document
  }

  function ActiveForDocument(document: Id): CollaboratorRecord -> bool {
    (c: CollaboratorRecord) => c.document == document && c.isActive
  }

  function ForPair(document: Id, user: Id): CollaboratorRecord -> bool {
    (c: CollaboratorRecord) => c.document == document && c.user == user
  }

  function ActiveForPair(document: Id, user: Id): CollaboratorRecord -> bool {
    (c: CollaboratorRecord) => c.document == document && c.user == user && c.isActive
  }

  function IsActive(): CollaboratorRecord -> bool {
    (c: CollaboratorRecord) => c.isActive
  }

  /** `findByDocument`: every row of the document, active or not. */
  function FindByDocument(rows: seq<CollaboratorRecord>, document: Id): (r: seq<CollaboratorRecord>)
    ensures forall c :: c in r <==> c in rows && c.document == document
  {
    Filter(rows, ForDocument(document))
  }

  /** `findByDocumentAndIsActiveTrue`: the document's present collaborators. */
  function FindByDocumentAndIsActiveTrue(rows: seq<CollaboratorRecord>, document: Id): (r: seq<CollaboratorRecord>)
    ensures forall c :: c in r <==> c in rows && c.document == document && c.isActive
  {
    Filter(rows, ActiveForDocument(document))
  }

  /** The active list is the full list of the document with the inactive
      rows taken out, in the same order. */
  lemma {:induction false} ActiveListFiltersFullList(rows: seq<CollaboratorRecord>, document: Id)
    ensures FindByDocumentAndIsActiveTrue(rows, document) == Filter(FindByDocument(rows, document), IsActive())
  {
    if rows != [] {
      ActiveListFiltersFullList(rows[1..], document);
      var rest := FindByDocument(rows[1..], document);
      if rows[0].document == document {
        var all := [rows[0]] + rest;
        assert FindByDocument(rows, document) == all;
        assert all[0] == rows[0] && all[1..] == rest;
        assert Filter(all, IsActive()) == (if rows[0].isActive then [rows[0]] else []) + Filter(rest, IsActive());
      } else {
        assert FindByDocument(rows, document) == rest;
      }
    }
  }

  /** The result of a single-row finder: no row, exactly one (at `index`),
      or more than one (Spring Data then throws). */
  datatype Lookup = Absent | Unique(index: nat) | Ambiguous

  /** `findByDocumentAndUser`. */
  function FindByDocumentAndUser(rows: seq<CollaboratorRecord>, document: Id, user: Id): (r: Lookup)
    ensures r.Absent? <==> forall j :: 0 <= j < |rows| ==> !(rows[j].document == document && rows[j].user == user)
    ensures r.Unique? ==> r.index < |rows| && rows[r.index].document == document && rows[r.index].user == user
    ensures r.Unique? ==> forall j :: 0 <= j < |rows| && j != r.index ==> !(rows[j].document == document && rows[j].user == user)
    ensures r.Ambiguous? <==> exists i, j :: (0 <= i < j < |rows| &&
      rows[i].document == document && rows[i].user == user && rows[j].document == document && rows[j].user == user)
  {
    match FirstIndex(rows, ForPair(document, user))
    case None => Absent
    case Some(i) =>
      match FirstIndex(rows[i + 1..], ForPair(document, user))
      case None => Unique(i)
      case Some(k) =>
        assert rows[i + 1..][k] == rows[i + 1 + k];
        Ambiguous
  }

  /** `existsByDocumentAndUserAndIsActiveTrue`. */
  function ExistsByDocumentAndUserAndIsActiveTrue(rows: seq<CollaboratorRecord>, document: Id, user: Id): (b: bool)
    ensures b <==> exists j :: 0 <= j < |rows| && rows[j].document == document && rows[j].user == user && rows[j].isActive
  {
    FirstIndex(rows, ActiveForPair(document, user)).Some?
  }

  /** The exists check agrees with looking the user up in the active list. */
  lemma ExistsIffInActiveList(rows: seq<CollaboratorRecord>, document: Id, user: Id)
    ensures ExistsByDocumentAndUserAndIsActiveTrue(rows, document, user) <==>
      exists c :: c in FindByDocumentAndIsActiveTrue(rows, document) && c.user == user
  {
    if ExistsByDocumentAndUserAndIsActiveTrue(rows, document, user) {
      var j :| 0 <= j < |rows| && rows[j].document == document && rows[j].user == user && rows[j].isActive;
      assert rows[j] in FindByDocumentAndIsActiveTrue(rows, document);
    }
  }

  /** When the pair has a single row, the exists check is that row's flag. */
  lemma ExistsOfUniqueRow(rows: seq<CollaboratorRecord>, document: Id, user: Id)
    requires FindByDocumentAndUser(rows, document, user).Unique?
    ensures ExistsByDocumentAndUserAndIsActiveTrue(rows, document, user) ==
      rows[FindByDocumentAndUser(rows, document, user).index].isActive
  {
  }
}
