/** The `document_collaborators` entity: the presence and permission record
    of one user on one document. */
module CollaboratorEntity {
  import opened Common

  /** The column values of one collaborator row. `permission` is meant to be
      "read" or "edit" but is stored as whatever string it is given. */
  datatype CollaboratorRecord = CollaboratorRecord(
    id: Option<Id>,
    document: Id,
    user: Id,
    permission: string,
    isActive: bool,
    joinedAt: Time,
    lastActivityAt: Time)

  class DocumentCollaborator {
    var id: Option<Id>
    var document: Id
    var user: Id
    var permission: string
    var isActive: bool
    var joinedAt: Time
    var lastActivityAt: Time

    function Row(): CollaboratorRecord
      reads this
    {
      CollaboratorRecord(id, document, user, permission, isActive, joinedAt, lastActivityAt)
    }

    /** `new DocumentCollaborator(document, user, permission)`: the three values
        verbatim, active by default, joined and last active now, no id yet. */
    constructor (document: Id, user: Id, permission: string, now: Time)
      ensures Row() == CollaboratorRecord(None, document, user, permission, true, now, now)
    {
      this.id := None;
      this.document := document;
      this.user := user;
      this.permission := permission;
      this.isActive := true;
      this.joinedAt := now;
      this.lastActivityAt := now;
    }

    /** The entity as a repository hands it out. */
    constructor Load(r: CollaboratorRecord)
      ensures Row() == r
    {
      id, document, user, permission := r.id, r.document, r.user, r.permission;
      isActive, joinedAt, lastActivityAt := r.isActive, r.joinedAt, r.lastActivityAt;
    }

    method SetId(v: Option<Id>)
      modifies this
      ensures Row() == old(Row()).(id := v)
    {
      id := v;
    }

    method SetDocument(v: Id)
      modifies this
      ensures Row() == old(Row()).(document := v)
    {
      document := v;
    }

    method SetUser(v: Id)
      modifies this
      ensures Row() == old(Row()).(user := v)
    {
      user := v;
    }

    method SetPermission(v: string)
      modifies this
      ensures Row() == old(Row()).(permission := v)
    {
      permission := v;
    }

    method SetIsActive(v: bool)
      modifies this
      ensures Row() == old(Row()).(isActive := v)
    {
      isActive := v;
    }

    method SetJoinedAt(v: Time)
      modifies this
      ensures Row() == old(Row()).(joinedAt := v)
    {
      joinedAt := v;
    }

    method SetLastActivityAt(v: Time)
      modifies this
      ensures Row() == old(Row()).(lastActivityAt := v)
    {
      lastActivityAt := v;
    }
  }
}
