/** Properties of sequences of requests across the controllers: what an
    invitation grants, what leaving takes away, and what a second
    invitation after leaving does to the pair's rows. */
module Scenarios {
  import opened Common
  import opened Records
  import opened CollaboratorEntity
  import DocumentRepository
  import UserRepository
  import DocumentVersionRepository
  import opened DocumentCollaboratorRepository
  import opened Access
  import opened Persistence
  import opened Collaboration
  import opened CollaborationWebSocket

  /** With unique usernames, looking a user up by their own name finds them. */
  lemma {:induction false} UsernameFindsAccount(users: seq<UserRecord>, u: UserRecord)
    requires UniqueAccounts(users) && u in users
    ensures UserRepository.FindByUsername(users, u.username) == Some(u)
  {
    var w := UserRepository.FindByUsername(users, u.username).value;
    var i :| 0 <= i < |users| && users[i] == w;
    var j :| 0 <= j < |users| && users[j] == u;
    assert !(i < j) && !(j < i);
  }

  /** An accepted invitation of a user with no row for the document makes
      that row the pair's only one: the invitee gains access, and may edit
      exactly when invited with "edit" (or when they own the document). */
  lemma InviteGrantsAccess(t: Tables, username: string, documentId: Id, email: string, permission: string, now: Time)
    requires Invite(t, username, documentId, email, permission, now).1.Ok?
    requires FindByDocumentAndUser(t.collaborators, documentId, UserRepository.FindByEmail(t.users, email).value.id).Absent?
    ensures var after := Invite(t, username, documentId, email, permission, now).0;
      var invited := UserRepository.FindByEmail(t.users, email).value;
      var owner := t.documents[DocumentRepository.FindById(t.documents, documentId).value].owner;
      FindByDocumentAndUser(after.collaborators, documentId, invited.id) == Unique(|t.collaborators|) &&
      HasDocumentAccess(after.collaborators, documentId, owner, invited.id) &&
      (EditPermission(after.collaborators, documentId, owner, invited.id) == Granted <==>
        (permission == "edit" || owner == invited.id))
  {
    var invited := UserRepository.FindByEmail(t.users, email).value;
    var row := InvitedRow(documentId, invited.id, permission, now).(id := Some(t.nextId));
    JoinedRowIsUnique(t.collaborators, documentId, invited.id, row);
  }

  /** Leaving takes a collaborator's access away: their next join is
      ignored and the collaboration listings refuse them, until the owner
      invites them again. */
  lemma LeaveRevokesAccess(t: Tables, username: string, documentId: Id, now: Time, later: Time)
    requires DocumentLeave(t, username, documentId, now).1 == Handled
    requires t.documents[DocumentRepository.FindById(t.documents, documentId).value].owner !=
             UserRepository.FindByUsername(t.users, username).value.id
    ensures var after := DocumentLeave(t, username, documentId, now).0;
      DocumentJoin(after, username, documentId, later) == (after, Dropped) &&
      DocumentVersions(after, username, documentId) == BadRequest(AccessDenied) &&
      DocumentCollaborators(after, username, documentId) == BadRequest(AccessDenied)
  {
    var after := DocumentLeave(t, username, documentId, now).0;
    var i := DocumentRepository.FindById(t.documents, documentId).value;
    assert after.documents[i].id == Some(documentId);
  }

  /** A read-only collaborator's content edits are ignored, yet the
      same collaborator may restore any version of the document, which
      overwrites its title and content: restoring is gated by access only. */
  lemma ReaderMayRestore(t: Tables, username: string, documentId: Id, versionId: Id, content: string, now: Time)
    requires DocumentRepository.FindById(t.documents, documentId).Some?
    requires UserRepository.FindByUsername(t.users, username).Some?
    requires var u := UserRepository.FindByUsername(t.users, username).value;
      var k := FindByDocumentAndUser(t.collaborators, documentId, u.id);
      t.documents[DocumentRepository.FindById(t.documents, documentId).value].owner != u.id &&
      k.Unique? && t.collaborators[k.index].isActive && t.collaborators[k.index].permission == "read"
    requires DocumentVersionRepository.FindById(t.versions, versionId).Some?
    requires DocumentVersionRepository.FindById(t.versions, versionId).value.document == documentId
    ensures EditEvent(t, username, documentId, NewContent(content), now) == (t, Dropped)
    ensures Restore(t, username, documentId, versionId, now).1.Ok?
  {
    var u := UserRepository.FindByUsername(t.users, username).value;
    var i := DocumentRepository.FindById(t.documents, documentId).value;
    ReaderAccessWithoutEdit(t.collaborators, documentId, t.documents[i].owner, u.id,
                            FindByDocumentAndUser(t.collaborators, documentId, u.id).index);
  }

  /** Inviting checks only for an ACTIVE row, so inviting again someone who
      has left adds a second row for the same pair. From then on every
      single-row lookup of the pair throws: the invitee's joins and edits
      abort, although the invitee has access. */
  lemma ReinviteAfterLeaveDuplicatesRow(t: Tables, username: string, documentId: Id, email: string,
                                        permission: string, now1: Time, now2: Time, now3: Time, now4: Time)
    requires Valid(t)
    requires Invite(t, username, documentId, email, permission, now1).1.Ok?
    requires DocumentLeave(Invite(t, username, documentId, email, permission, now1).0,
                           UserRepository.FindByEmail(t.users, email).value.username, documentId, now2).1 == Handled
    ensures var invited := UserRepository.FindByEmail(t.users, email).value;
      var t1 := Invite(t, username, documentId, email, permission, now1).0;
      var t2 := DocumentLeave(t1, invited.username, documentId, now2).0;
      var t3 := Invite(t2, username, documentId, email, permission, now3);
      t3.1.Ok? &&
      FindByDocumentAndUser(t3.0.collaborators, documentId, invited.id).Ambiguous? &&
      HasDocumentAccess(t3.0.collaborators, documentId, t.documents[DocumentRepository.FindById(t.documents, documentId).value].owner, invited.id) &&
      DocumentJoin(t3.0, invited.username, documentId, now4) == (t3.0, Aborted(NonUniqueResult))
  {
    var invited := UserRepository.FindByEmail(t.users, email).value;
    var t1 := Invite(t, username, documentId, email, permission, now1).0;
    assert invited in t1.users;
    UsernameFindsAccount(t1.users, invited);
    var t2 := DocumentLeave(t1, invited.username, documentId, now2).0;
    assert t2.users == t.users && t2.documents == t.documents;
    var t3 := Invite(t2, username, documentId, email, permission, now3);
    assert t3.1.Ok?;
    var before := |t.collaborators|;
    var first := t1.collaborators[before];
    assert IsPair(first, documentId, invited.id);
    assert IsPair(t2.collaborators[before], documentId, invited.id);
    var added := |t2.collaborators|;
    assert t3.0.collaborators[before] == t2.collaborators[before];
    assert IsPair(t3.0.collaborators[added], documentId, invited.id) && t3.0.collaborators[added].isActive;
    assert before < added;
  }
}
