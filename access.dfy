/** The access rules of the controllers. A user may act on a document when
    they own it or hold an active collaborator row for it; editing further
    needs that row to carry the permission "edit". */
module Access {
  import opened Common
  import opened CollaboratorEntity
  import opened DocumentCollaboratorRepository

  /** `hasDocumentAccess` of the realtime and collaboration controllers:
      the owner, or an active row in the exists query. */
  function HasDocumentAccess(rows: seq<CollaboratorRecord>, document: Id, owner: Id, user: Id): (b: bool)
    ensures b <==> (owner == user ||
      exists j :: 0 <= j < |rows| && rows[j].document == document && rows[j].user == user && rows[j].isActive)
  {
    owner == user || ExistsByDocumentAndUserAndIsActiveTrue(rows, document, user)
  }

  /** What the edit check decides: yes, no, or the pair lookup threw
      because the pair has two rows. */
  datatype Verdict = Granted | Refused | LookupFailed

  /** `hasEditPermission`: the owner always; otherwise the single row of the
      pair must be active and carry "edit"; no row means no. */
  function EditPermission(rows: seq<CollaboratorRecord>, document: Id, owner: Id, user: Id): (v: Verdict)
    ensures owner == user ==> v == Granted
    ensures v == LookupFailed <==> owner != user && FindByDocumentAndUser(rows, document, user).Ambiguous?
    ensures v == Granted && owner != user ==>
      exists j :: 0 <= j < |rows| && rows[j].document == document && rows[j].user == user &&
        rows[j].isActive && rows[j].permission == "edit"
    ensures v == Refused ==>
      forall j :: 0 <= j < |rows| && rows[j].document == document && rows[j].user == user ==>
        !(rows[j].isActive && rows[j].permission == "edit")
  {
    if owner == user then Granted
    else
      match FindByDocumentAndUser(rows, document, user)
      case Absent => Refused
      case Unique(i) => if rows[i].permission == "edit" && rows[i].isActive then Granted else Refused
      case Ambiguous => LookupFailed
  }

  /** Whoever may edit may also access: edit permission is the stronger rule. */
  lemma EditImpliesAccess(rows: seq<CollaboratorRecord>, document: Id, owner: Id, user: Id)
    ensures EditPermission(rows, document, owner, user) == Granted ==> HasDocumentAccess(rows, document, owner, user)
  {
  }

  /** An active collaborator holding "read" has access but may not edit: the
      two rules differ exactly on the permission string. */
  lemma ReaderAccessWithoutEdit(rows: seq<CollaboratorRecord>, document: Id, owner: Id, user: Id, i: nat)
    requires owner != user && i < |rows|
    requires FindByDocumentAndUser(rows, document, user) == Unique(i)
    requires rows[i].isActive && rows[i].permission == "read"
    ensures HasDocumentAccess(rows, document, owner, user)
    ensures EditPermission(rows, document, owner, user) == Refused
  {
  }

  /** Some row of `list` belongs to `user` and is active (the stream's `anyMatch`). */
  function AnyActiveRowOf(list: seq<CollaboratorRecord>, user: Id): (b: bool)
    ensures b <==> exists c :: c in list && c.user == user && c.isActive
  {
    if list == [] then false
    else if list[0].user == user && list[0].isActive then true
    else
      assert forall c :: c in list[1..] ==> c in list;
      assert forall c :: c in list ==> c == list[0] || c in list[1..];
      AnyActiveRowOf(list[1..], user)
  }

  /** `hasDocumentAccess` of the file controller: the owner, or a match over
      the document's collaborator list, every row of it loaded. */
  function FileAccess(rows: seq<CollaboratorRecord>, document: Id, owner: Id, user: Id): (b: bool)
    ensures b <==> owner == user || exists c :: c in FindByDocument(rows, document) && c.user == user && c.isActive
  {
    owner == user || AnyActiveRowOf(FindByDocument(rows, document), user)
  }

  /** Scanning the loaded list and asking the exists query agree, so the
      file controller grants the same access as the other two. */
  lemma FileAccessAgrees(rows: seq<CollaboratorRecord>, document: Id, owner: Id, user: Id)
    ensures FileAccess(rows, document, owner, user) == HasDocumentAccess(rows, document, owner, user)
  {
    if HasDocumentAccess(rows, document, owner, user) && owner != user {
      var j :| 0 <= j < |rows| && rows[j].document == document && rows[j].user == user && rows[j].isActive;
      assert rows[j] in FindByDocument(rows, document);
    }
  }
}
