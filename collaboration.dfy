/** The REST side of collaboration: the access-gated listings of a
    document's versions, activities and collaborators, inviting a
    collaborator, and restoring an earlier version. Every operation first
    loads the document by id and throws when there is none. */
module Collaboration {
  import opened Common
  import opened Records
  import opened DocumentEntity
  import opened CollaboratorEntity
  import DocumentRepository
  import UserRepository
  import DocumentVersionRepository
  import DocumentActivityRepository
  import opened DocumentCollaboratorRepository
  import opened Access
  import opened Persistence

  /** `hasDocumentAccess` of this controller: the principal is looked up by
      username (throwing when absent) and then the shared rule applies. */
  function PrincipalAccess(t: Tables, username: string, i: nat): (r: Reply<UserRecord>)
    requires i < |t.documents|
    ensures r.Ok? || r == Thrown(UserNotFound) || r == BadRequest(AccessDenied)
    ensures r.Ok? <==> (UserRepository.FindByUsername(t.users, username).Some? &&
      HasDocumentAccess(t.collaborators, t.documents[i].id.GetOr(0), t.documents[i].owner,
                        UserRepository.FindByUsername(t.users, username).value.id))
    ensures r.Ok? ==> r.value == UserRepository.FindByUsername(t.users, username).value
    ensures r == Thrown(UserNotFound) <==> UserRepository.FindByUsername(t.users, username).None?
  {
    match UserRepository.FindByUsername(t.users, username)
    case None => Thrown(UserNotFound)
    case Some(u) =>
      if HasDocumentAccess(t.collaborators, t.documents[i].id.GetOr(0), t.documents[i].owner, u.id) then Ok(u)
      else BadRequest(AccessDenied)
  }

  /** The gate every listing passes first: a missing document throws, and
      otherwise the listing is returned exactly when `PrincipalAccess`
      grants it, with the same refusal or exception when it does not. */
  predicate ListingGate<T>(t: Tables, username: string, documentId: Id, r: Reply<T>) {
    match DocumentRepository.FindById(t.documents, documentId)
    case None => r.Thrown? && r.failure == DocumentNotFound
    case Some(i) =>
      var access := PrincipalAccess(t, username, i);
      (r.Ok? <==> access.Ok?) &&
      (r.BadRequest? <==> access.BadRequest?) && (r.BadRequest? ==> r.rejection == AccessDenied) &&
      (r.Thrown? <==> access.Thrown?) && (r.Thrown? ==> r.failure == UserNotFound) &&
      !r.Forbidden? && !r.NotFound? && !r.ServerError?
  }

  /** `getDocumentVersions`: the document's whole history, newest number first. */
  function DocumentVersions(t: Tables, username: string, documentId: Id): (r: Reply<seq<VersionRecord>>)
    ensures DocumentRepository.FindById(t.documents, documentId).None? ==> r == Thrown(DocumentNotFound)
    ensures r.Ok? ==> (forall v :: v in r.value <==> v in t.versions && v.document == documentId)
    ensures r.Ok? ==> forall i, j :: 0 <= i < j < |r.value| ==> r.value[i].versionNumber >= r.value[j].versionNumber
    ensures r.Ok? ==> r.value == DocumentVersionRepository.FindByDocumentOrderByVersionNumberDesc(t.versions, documentId)
    ensures ListingGate(t, username, documentId, r)
  {
    match DocumentRepository.FindById(t.documents, documentId)
    case None => Thrown(DocumentNotFound)
    case Some(i) =>
      var access := PrincipalAccess(t, username, i);
      if access.Ok? then Ok(DocumentVersionRepository.FindByDocumentOrderByVersionNumberDesc(t.versions, documentId))
      else if access.BadRequest? then BadRequest(AccessDenied)
      else Thrown(UserNotFound)
  }

  /** `getDocumentActivities`: the ten most recent activities. */
  function DocumentActivities(t: Tables, username: string, documentId: Id): (r: Reply<seq<ActivityRecord>>)
    ensures DocumentRepository.FindById(t.documents, documentId).None? ==> r == Thrown(DocumentNotFound)
    ensures r.Ok? ==> |r.value| <= 10 && forall a :: a in r.value ==> a in t.activities && a.document == documentId
    ensures r.Ok? ==>
      var all := DocumentActivityRepository.FindByDocumentOrderByCreatedAtDesc(t.activities, documentId);
      r.value <= all && |r.value| == if |all| < 10 then |all| else 10
    ensures r.Ok? ==> r.value == DocumentActivityRepository.FindTop10ByDocumentOrderByCreatedAtDesc(t.activities, documentId)
    ensures ListingGate(t, username, documentId, r)
  {
    match DocumentRepository.FindById(t.documents, documentId)
    case None => Thrown(DocumentNotFound)
    case Some(i) =>
      var access := PrincipalAccess(t, username, i);
      if access.Ok? then Ok(DocumentActivityRepository.FindTop10ByDocumentOrderByCreatedAtDesc(t.activities, documentId))
      else if access.BadRequest? then BadRequest(AccessDenied)
      else Thrown(UserNotFound)
  }

  /** `getDocumentCollaborators`: the present collaborators only. */
  function DocumentCollaborators(t: Tables, username: string, documentId: Id): (r: Reply<seq<CollaboratorRecord>>)
    ensures DocumentRepository.FindById(t.documents, documentId).None? ==> r == Thrown(DocumentNotFound)
    ensures r.Ok? ==> forall c :: c in r.value <==> c in t.collaborators && c.document == documentId && c.isActive
    ensures r.Ok? ==> r.value == FindByDocumentAndIsActiveTrue(t.collaborators, documentId)
    ensures ListingGate(t, username, documentId, r)
  {
    match DocumentRepository.FindById(t.documents, documentId)
    case None => Thrown(DocumentNotFound)
    case Some(i) =>
      var access := PrincipalAccess(t, username, i);
      if access.Ok? then Ok(FindByDocumentAndIsActiveTrue(t.collaborators, documentId))
      else if access.BadRequest? then BadRequest(AccessDenied)
      else Thrown(UserNotFound)
  }

  /** The new row an invitation saves. */
  function InvitedRow(documentId: Id, user: Id, permission: string, now: Time): CollaboratorRecord {
    CollaboratorRecord(None, documentId, user, permission, true, now, now)
  }

  /** The document exists and its owner, compared by username, is the caller. */
  predicate OwnerInvites(t: Tables, username: string, documentId: Id) {
    match DocumentRepository.FindById(t.documents, documentId)
    case None => false
    case Some(i) =>
      var owner := UserRepository.FindById(t.users, t.documents[i].owner);
      owner.Some? && owner.value.username == username
  }

  /** `inviteCollaborator`. */
  function Invite(t: Tables, username: string, documentId: Id, email: string, permission: string, now: Time): (r: (Tables, Reply<()>))
    // every refusal and every exception leaves the tables as they were
    ensures !r.1.Ok? ==> r.0 == t
    ensures DocumentRepository.FindById(t.documents, documentId).None? ==> r.1 == Thrown(DocumentNotFound)
    // only the owner, compared by username, may invite
    ensures r.1 == BadRequest(NotOwner) <==>
      DocumentRepository.FindById(t.documents, documentId).Some? &&
      (var d := t.documents[DocumentRepository.FindById(t.documents, documentId).value];
       UserRepository.FindById(t.users, d.owner).Some? && UserRepository.FindById(t.users, d.owner).value.username != username)
    // past the owner check: an unknown email throws, a present collaborator is refused
    ensures OwnerInvites(t, username, documentId) ==>
      (r.1 == Thrown(UserNotFound) <==> UserRepository.FindByEmail(t.users, email).None?)
    ensures r.1 == BadRequest(AlreadyCollaborator) <==>
      OwnerInvites(t, username, documentId) && UserRepository.FindByEmail(t.users, email).Some? &&
      ExistsByDocumentAndUserAndIsActiveTrue(t.collaborators, documentId, UserRepository.FindByEmail(t.users, email).value.id)
    // an owner whose row is gone cannot be compared
    ensures r.1 == Thrown(DanglingReference) <==>
      DocumentRepository.FindById(t.documents, documentId).Some? &&
      UserRepository.FindById(t.users, t.documents[DocumentRepository.FindById(t.documents, documentId).value].owner).None?
    // the invitation is accepted exactly when every check passes
    ensures r.1.Ok? <==>
      OwnerInvites(t, username, documentId) && UserRepository.FindByEmail(t.users, email).Some? &&
      !ExistsByDocumentAndUserAndIsActiveTrue(t.collaborators, documentId, UserRepository.FindByEmail(t.users, email).value.id)
    // an accepted invitation adds one active row and one activity, nothing else
    ensures r.1.Ok? ==> (DocumentRepository.FindById(t.documents, documentId).Some? &&
      UserRepository.FindByEmail(t.users, email).Some? && UserRepository.FindByUsername(t.users, username).Some? &&
      UserRepository.FindById(t.users, t.documents[DocumentRepository.FindById(t.documents, documentId).value].owner).Some?)
    ensures r.1.Ok? ==>
      var d := t.documents[DocumentRepository.FindById(t.documents, documentId).value];
      var invited := UserRepository.FindByEmail(t.users, email).value;
      UserRepository.FindById(t.users, d.owner).value.username == username &&
      !ExistsByDocumentAndUserAndIsActiveTrue(t.collaborators, documentId, invited.id) &&
      r.0 == Invited(t, documentId, invited, permission, UserRepository.FindByUsername(t.users, username).value.id, now)
  {
    match DocumentRepository.FindById(t.documents, documentId)
    case None => (t, Thrown(DocumentNotFound))
    case Some(i) =>
      match UserRepository.FindById(t.users, t.documents[i].owner)
      case None => (t, Thrown(DanglingReference))
      case Some(owner) =>
        if owner.username != username then (t, BadRequest(NotOwner))
        else
          match UserRepository.FindByEmail(t.users, email)
          case None => (t, Thrown(UserNotFound))
          case Some(invited) =>
            if ExistsByDocumentAndUserAndIsActiveTrue(t.collaborators, documentId, invited.id) then
              (t, BadRequest(AlreadyCollaborator))
            else
              // `getCurrentUser` cannot throw here: the owner has this username
              var current := UserRepository.FindByUsername(t.users, username);
              assert owner in t.users;
              assert current.Some?;
              (Invited(t, documentId, invited, permission, current.value.id, now), Ok(()))
  }

  /** The two writes of an accepted invitation: the new active row, then the
      activity recorded under the inviter's id. */
  function Invited(t: Tables, documentId: Id, invited: UserRecord, permission: string, inviter: Id, now: Time): (r: Tables)
    ensures r.collaborators == t.collaborators + [InvitedRow(documentId, invited.id, permission, now).(id := Some(t.nextId))]
    ensures r.activities == t.activities +
      [ActivityRecord(t.nextId + 1, documentId, inviter, CollaboratorInvited, InvitedCollaborator(invited.username), now)]
    ensures r.documents == t.documents && r.users == t.users && r.versions == t.versions &&
      r.files == t.files && r.blobs == t.blobs && r.outbox == t.outbox && r.nextId == t.nextId + 2
  {
    var t1 := InsertCollaborator(t, InvitedRow(documentId, invited.id, permission, now));
    AppendActivity(t1, documentId, inviter, CollaboratorInvited, InvitedCollaborator(invited.username), now)
  }

  /** Inviting keeps the invariant: it only appends a row and an activity. */
  lemma InviteKeepsValid(t: Tables, username: string, documentId: Id, email: string, permission: string, now: Time)
    ensures Valid(t) ==> Valid(Invite(t, username, documentId, email, permission, now).0)
  {
    var r := Invite(t, username, documentId, email, permission, now);
    if r.1.Ok? {
      var invited := UserRepository.FindByEmail(t.users, email).value;
      var current := UserRepository.FindByUsername(t.users, username).value;
      InsertCollaboratorKeepsValid(t, InvitedRow(documentId, invited.id, permission, now));
      var t1 := InsertCollaborator(t, InvitedRow(documentId, invited.id, permission, now));
      AppendActivityKeepsValid(t1, documentId, current.id, CollaboratorInvited, InvitedCollaborator(invited.username), now);
    }
  }

  /** `restoreVersion`. */
  function Restore(t: Tables, username: string, documentId: Id, versionId: Id, now: Time): (r: (Tables, Reply<()>))
    ensures !r.1.Ok? ==> r.0 == t
    ensures DocumentRepository.FindById(t.documents, documentId).None? ==> r.1 == Thrown(DocumentNotFound)
    // the gate is access, not edit permission; then the version must exist and be this document's
    ensures r.1.Ok? <==>
      DocumentRepository.FindById(t.documents, documentId).Some? &&
      PrincipalAccess(t, username, DocumentRepository.FindById(t.documents, documentId).value).Ok? &&
      DocumentVersionRepository.FindById(t.versions, versionId).Some? &&
      DocumentVersionRepository.FindById(t.versions, versionId).value.document == documentId
    // a refused principal gets the access check's own refusal or exception
    ensures r.1 == BadRequest(AccessDenied) <==>
      DocumentRepository.FindById(t.documents, documentId).Some? &&
      PrincipalAccess(t, username, DocumentRepository.FindById(t.documents, documentId).value).BadRequest?
    ensures r.1 == Thrown(UserNotFound) <==>
      DocumentRepository.FindById(t.documents, documentId).Some? &&
      PrincipalAccess(t, username, DocumentRepository.FindById(t.documents, documentId).value).Thrown?
    // past the access check: a missing version throws, a foreign one is refused
    ensures r.1 == Thrown(VersionNotFound) <==>
      DocumentRepository.FindById(t.documents, documentId).Some? &&
      PrincipalAccess(t, username, DocumentRepository.FindById(t.documents, documentId).value).Ok? &&
      DocumentVersionRepository.FindById(t.versions, versionId).None?
    ensures r.1 == BadRequest(ForeignVersion) <==>
      DocumentRepository.FindById(t.documents, documentId).Some? &&
      PrincipalAccess(t, username, DocumentRepository.FindById(t.documents, documentId).value).Ok? &&
      DocumentVersionRepository.FindById(t.versions, versionId).Some? &&
      DocumentVersionRepository.FindById(t.versions, versionId).value.document != documentId
    // first the current state becomes version count+1, then the target's text is copied back
    ensures r.1.Ok? ==>
      var i := DocumentRepository.FindById(t.documents, documentId).value;
      var d := t.documents[i];
      var v := DocumentVersionRepository.FindById(t.versions, versionId).value;
      var u := UserRepository.FindByUsername(t.users, username).value;
      r.0 == Restored(t, i, documentId, v, u.id, now)
  {
    match DocumentRepository.FindById(t.documents, documentId)
    case None => (t, Thrown(DocumentNotFound))
    case Some(i) =>
      var access := PrincipalAccess(t, username, i);
      if !access.Ok? then (t, if access.BadRequest? then BadRequest(AccessDenied) else Thrown(UserNotFound))
      else
        var u := access.value;
        match DocumentVersionRepository.FindById(t.versions, versionId)
        case None => (t, Thrown(VersionNotFound))
        case Some(v) =>
          if v.document != documentId then (t, BadRequest(ForeignVersion))
          else
            (Restored(t, i, documentId, v, u.id, now), Ok(()))
  }

  /** The three writes of an accepted restore: the snapshot of the current
      state, the document overwritten with the target's text, the activity. */
  function Restored(t: Tables, i: nat, documentId: Id, v: VersionRecord, user: Id, now: Time): (r: Tables)
    requires i < |t.documents|
    ensures var d := t.documents[i];
      r.versions == t.versions +
        [VersionRecord(t.nextId, documentId, DocumentVersionRepository.CountByDocument(t.versions, documentId) + 1,
                       d.title, d.content, RestoredTo(v.versionNumber), user, now)] &&
      r.documents == t.documents[i := d.(title := v.title, content := v.content, updatedAt := Some(now))] &&
      r.activities == t.activities +
        [ActivityRecord(t.nextId + 1, documentId, user, VersionRestored, RestoredTo(v.versionNumber), now)] &&
      r.users == t.users && r.collaborators == t.collaborators && r.files == t.files &&
      r.blobs == t.blobs && r.outbox == t.outbox && r.nextId == t.nextId + 2
  {
    var d := t.documents[i];
    var n := DocumentVersionRepository.CountByDocument(t.versions, documentId) + 1;
    var t1 := AppendVersion(t, documentId, n, d.title, d.content, RestoredTo(v.versionNumber), user, now);
    var t2 := SaveDocumentAt(t1, i, d.(title := v.title, content := v.content), now);
    AppendActivity(t2, documentId, user, VersionRestored, RestoredTo(v.versionNumber), now)
  }

  /** The writes of a restore keep the invariant: the snapshot is numbered
      count+1 and the document keeps its id. */
  lemma RestoredKeepsValid(t: Tables, i: nat, documentId: Id, v: VersionRecord, user: Id, now: Time)
    requires i < |t.documents|
    ensures Valid(t) ==> Valid(Restored(t, i, documentId, v, user, now))
  {
    var d := t.documents[i];
    var t1 := AppendVersion(t, documentId, VersionCount(t.versions, documentId) + 1, d.title, d.content,
                            RestoredTo(v.versionNumber), user, now);
    AppendVersionKeepsValid(t, documentId, d.title, d.content, RestoredTo(v.versionNumber), user, now);
    SaveDocumentKeepsValid(t1, i, d.(title := v.title, content := v.content), now);
    var t2 := SaveDocumentAt(t1, i, d.(title := v.title, content := v.content), now);
    AppendActivityKeepsValid(t2, documentId, user, VersionRestored, RestoredTo(v.versionNumber), now);
  }

  /** Restoring keeps the invariant. */
  lemma RestoreKeepsValid(t: Tables, username: string, documentId: Id, versionId: Id, now: Time)
    ensures Valid(t) ==> Valid(Restore(t, username, documentId, versionId, now).0)
  {
    if Restore(t, username, documentId, versionId, now).1.Ok? {
      var i := DocumentRepository.FindById(t.documents, documentId).value;
      var v := DocumentVersionRepository.FindById(t.versions, versionId).value;
      var u := UserRepository.FindByUsername(t.users, username).value;
      RestoredKeepsValid(t, i, documentId, v, u.id, now);
    }
  }

  /** On numbered versions, the snapshot a restore takes is numbered above
      every earlier version of the document, so it becomes the newest one. */
  lemma RestoreSnapshotIsNewest(t: Tables, username: string, documentId: Id, versionId: Id, now: Time)
    requires Valid(t)
    requires Restore(t, username, documentId, versionId, now).1.Ok?
    ensures var after := Restore(t, username, documentId, versionId, now).0;
      var snapshot := after.versions[|t.versions|];
      forall v :: v in t.versions && v.document == documentId ==> v.versionNumber < snapshot.versionNumber
  {
    NumbersWithinCount(t.versions, documentId);
  }

  /** The live document controller over the shared store. */
  class CollaborationController {
    const store: Store

    constructor (store: Store)
      ensures this.store == store
    {
      this.store := store;
    }

    /** `inviteCollaborator`. */
    method InviteCollaborator(username: string, documentId: Id, email: string, permission: string, now: Time)
      returns (reply: Reply<()>)
      modifies store
      ensures (store.Snapshot(), reply) == Invite(old(store.Snapshot()), username, documentId, email, permission, now)
    {
      var found := DocumentRepository.FindById(store.documents, documentId);
      if found.None? {
        return Thrown(DocumentNotFound);
      }
      var owner := UserRepository.FindById(store.users, store.documents[found.value].owner);
      if owner.None? {
        return Thrown(DanglingReference);
      }
      if owner.value.username != username {
        return BadRequest(NotOwner);
      }
      var invited := UserRepository.FindByEmail(store.users, email);
      if invited.None? {
        return Thrown(UserNotFound);
      }
      if ExistsByDocumentAndUserAndIsActiveTrue(store.collaborators, documentId, invited.value.id) {
        return BadRequest(AlreadyCollaborator);
      }
      assert owner.value in store.users;
      WriteInvitation(documentId, invited.value, permission, username, now);
      reply := Ok(());
    }

    /** The writes of an accepted invitation; the inviter is looked up again
        by name after the row is saved. */
    method WriteInvitation(documentId: Id, invited: UserRecord, permission: string, username: string, now: Time)
      requires UserRepository.FindByUsername(store.users, username).Some?
      modifies store
      ensures store.Snapshot() == Invited(old(store.Snapshot()), documentId, invited, permission,
                                          UserRepository.FindByUsername(old(store.users), username).value.id, now)
    {
      var collaborator := new DocumentCollaborator(documentId, invited.id, permission, now);
      store.CreateCollaborator(collaborator);
      var current := UserRepository.FindByUsername(store.users, username);
      store.AddActivity(documentId, current.value.id, CollaboratorInvited, InvitedCollaborator(invited.username), now);
    }

    /** `restoreVersion`. */
    method RestoreVersion(username: string, documentId: Id, versionId: Id, now: Time) returns (reply: Reply<()>)
      modifies store
      ensures (store.Snapshot(), reply) == Restore(old(store.Snapshot()), username, documentId, versionId, now)
    {
      var found := DocumentRepository.FindById(store.documents, documentId);
      if found.None? {
        return Thrown(DocumentNotFound);
      }
      var i := found.value;
      var access := PrincipalAccess(store.Snapshot(), username, i);
      if !access.Ok? {
        return if access.BadRequest? then BadRequest(access.rejection) else Thrown(UserNotFound);
      }
      var user := access.value;
      var version := DocumentVersionRepository.FindById(store.versions, versionId);
      if version.None? {
        return Thrown(VersionNotFound);
      }
      var target := version.value;
      if target.document != documentId {
        return BadRequest(ForeignVersion);
      }
      WriteRestore(i, documentId, target, user.id, now);
      reply := Ok(());
    }

    /** The writes of an accepted restore, through the document entity. */
    method WriteRestore(i: nat, documentId: Id, target: VersionRecord, user: Id, now: Time)
      requires i < |store.documents|
      modifies store
      ensures store.Snapshot() == Restored(old(store.Snapshot()), i, documentId, target, user, now)
    {
      ghost var before := store.Snapshot();
      var document := new Document.Load(store.documents[i]);
      var number := DocumentVersionRepository.CountByDocument(store.versions, documentId) + 1;
      store.AddVersion(documentId, number, document.title, document.content, RestoredTo(target.versionNumber), user, now);
      ghost var snapshotted := store.Snapshot();
      document.SetTitle(target.title);
      document.SetContent(target.content);
      document.SetUpdatedAt(Some(now));
      store.SaveDocument(i, document, now);
      assert store.Snapshot() ==
        SaveDocumentAt(snapshotted, i, before.documents[i].(title := target.title, content := target.content), now);
      store.AddActivity(documentId, user, VersionRestored, RestoredTo(target.versionNumber), now);
    }
  }
}
