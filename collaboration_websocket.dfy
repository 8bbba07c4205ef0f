/** The realtime handlers of a document channel: an edit of the content or
    the title, a user joining and a user leaving. Each handler loads the
    document by id (soft-deleted ones included) and the sender by username,
    throwing when either is missing; a refused sender is ignored silently;
    otherwise the handler writes the tables and publishes one message on
    the document's topic. */
module CollaborationWebSocket {
  import opened Common
  import opened Records
  import opened DocumentEntity
  import opened CollaboratorEntity
  import DocumentRepository
  import UserRepository
  import opened DocumentCollaboratorRepository
  import opened Access
  import opened Persistence

  /** The pair's row is `c`. */
  predicate IsPair(c: CollaboratorRecord, document: Id, user: Id) {
    c.document == document && c.user == user
  }

  /** `updateCollaboratorActivity`: the pair's row, when there is one, gets
      its last activity time refreshed; `None` when the lookup throws. */
  function TouchCollaborator(t: Tables, document: Id, user: Id, now: Time): (r: Option<Tables>)
    ensures r.None? <==> FindByDocumentAndUser(t.collaborators, document, user).Ambiguous?
    ensures r.Some? ==> r.value == t.(collaborators := r.value.collaborators)
    ensures r.Some? ==> (|r.value.collaborators| == |t.collaborators| &&
      forall j :: 0 <= j < |t.collaborators| ==>
        r.value.collaborators[j] ==
          if IsPair(t.collaborators[j], document, user) then t.collaborators[j].(lastActivityAt := now)
          else t.collaborators[j])
    ensures r.Some? && Valid(t) ==> Valid(r.value)
  {
    match FindByDocumentAndUser(t.collaborators, document, user)
    case Absent => Some(t)
    case Unique(k) => Some(SaveCollaboratorAt(t, k, t.collaborators[k].(lastActivityAt := now)))
    case Ambiguous => None
  }

  /** What an edit event carries: new content or a new title. */
  datatype Change = NewContent(content: string) | NewTitle(title: string)

  /** The document with the change applied. */
  function Applied(d: DocumentRecord, change: Change): DocumentRecord {
    match change
    case NewContent(content) => d.(content := content)
    case NewTitle(title) => d.(title := title)
  }

  /** The broadcast announcing the change. */
  function Announcement(documentId: Id, change: Change, user: UserRef, now: Time): Broadcast {
    match change
    case NewContent(content) => ContentUpdate(documentId, content, user, now)
    case NewTitle(title) => TitleUpdate(documentId, title, user, now)
  }

  /** `handleDocumentEdit` (for `NewContent`) and `handleTitleUpdate` (for
      `NewTitle`). */
  function EditEvent(t: Tables, username: string, documentId: Id, change: Change, now: Time): (r: (Tables, HandlerOutcome))
    // the lookups throw before anything changes
    ensures DocumentRepository.FindById(t.documents, documentId).None? ==> r == (t, Aborted(DocumentNotFound))
    ensures DocumentRepository.FindById(t.documents, documentId).Some? && UserRepository.FindByUsername(t.users, username).None? ==>
      r == (t, Aborted(UserNotFound))
    // a sender without edit permission is ignored: nothing changes at all
    ensures r.1 == Dropped <==>
      DocumentRepository.FindById(t.documents, documentId).Some? && UserRepository.FindByUsername(t.users, username).Some? &&
      EditPermission(t.collaborators, documentId, t.documents[DocumentRepository.FindById(t.documents, documentId).value].owner,
                     UserRepository.FindByUsername(t.users, username).value.id) == Refused
    ensures r.1 == Dropped ==> r.0 == t
    // a permitted edit is handled unless the sender's pair lookup throws,
    // either in the permission check or when the activity time is touched
    ensures r.1 == Handled <==>
      DocumentRepository.FindById(t.documents, documentId).Some? && UserRepository.FindByUsername(t.users, username).Some? &&
      EditPermission(t.collaborators, documentId, t.documents[DocumentRepository.FindById(t.documents, documentId).value].owner,
                     UserRepository.FindByUsername(t.users, username).value.id) == Granted &&
      !FindByDocumentAndUser(t.collaborators, documentId, UserRepository.FindByUsername(t.users, username).value.id).Ambiguous?
    ensures r.1 == Aborted(NonUniqueResult) <==>
      DocumentRepository.FindById(t.documents, documentId).Some? && UserRepository.FindByUsername(t.users, username).Some? &&
      EditPermission(t.collaborators, documentId, t.documents[DocumentRepository.FindById(t.documents, documentId).value].owner,
                     UserRepository.FindByUsername(t.users, username).value.id) != Refused &&
      FindByDocumentAndUser(t.collaborators, documentId, UserRepository.FindByUsername(t.users, username).value.id).Ambiguous?
    // an accepted edit changes that one document's field and its update time
    ensures r.1 == Handled ==>
      var i := DocumentRepository.FindById(t.documents, documentId).value;
      var u := UserRepository.FindByUsername(t.users, username).value;
      r.0.documents == t.documents[i := Applied(t.documents[i], change).(updatedAt := Some(now))] &&
      // only the sender's own row, if any, is touched, and only its activity time
      |r.0.collaborators| == |t.collaborators| &&
      (forall j :: 0 <= j < |t.collaborators| ==>
        r.0.collaborators[j] ==
          if IsPair(t.collaborators[j], documentId, u.id) then t.collaborators[j].(lastActivityAt := now)
          else t.collaborators[j]) &&
      // exactly one message on the document's topic
      r.0.outbox == t.outbox + [Publication(Topic(documentId), Announcement(documentId, change, UserRef(u.id, u.username), now))]
    ensures r.1 == Handled ==>
      r.0.users == t.users && r.0.versions == t.versions && r.0.activities == t.activities &&
      r.0.files == t.files && r.0.blobs == t.blobs && r.0.nextId == t.nextId
    // no exception publishes anything; only the owner's touch, which runs
    // after the document is saved, leaves a write behind
    ensures r.1.Aborted? ==> r.0.outbox == t.outbox && r.0.collaborators == t.collaborators
    ensures r.1.Aborted? && r.0 != t ==>
      DocumentRepository.FindById(t.documents, documentId).Some? && UserRepository.FindByUsername(t.users, username).Some? &&
      var i := DocumentRepository.FindById(t.documents, documentId).value;
      EditPermission(t.collaborators, documentId, t.documents[i].owner,
                     UserRepository.FindByUsername(t.users, username).value.id) == Granted &&
      r.0 == t.(documents := t.documents[i := Applied(t.documents[i], change).(updatedAt := Some(now))])
    ensures Valid(t) ==> Valid(r.0)
  {
    match DocumentRepository.FindById(t.documents, documentId)
    case None => (t, Aborted(DocumentNotFound))
    case Some(i) =>
      match UserRepository.FindByUsername(t.users, username)
      case None => (t, Aborted(UserNotFound))
      case Some(u) =>
        match EditPermission(t.collaborators, documentId, t.documents[i].owner, u.id)
        case LookupFailed => (t, Aborted(NonUniqueResult))
        case Refused => (t, Dropped)
        case Granted =>
          var saved := SaveDocumentAt(t, i, Applied(t.documents[i], change).(updatedAt := Some(now)), now);
          SaveDocumentKeepsValid(t, i, Applied(t.documents[i], change).(updatedAt := Some(now)), now);
          match TouchCollaborator(saved, documentId, u.id, now)
          case None => (saved, Aborted(NonUniqueResult))
          case Some(touched) =>
            (Publish(touched, Topic(documentId), Announcement(documentId, change, UserRef(u.id, u.username), now)), Handled)
  }

  /** `handleDocumentJoin`. */
  function DocumentJoin(t: Tables, username: string, documentId: Id, now: Time): (r: (Tables, HandlerOutcome))
    ensures DocumentRepository.FindById(t.documents, documentId).None? ==> r == (t, Aborted(DocumentNotFound))
    ensures DocumentRepository.FindById(t.documents, documentId).Some? && UserRepository.FindByUsername(t.users, username).None? ==>
      r == (t, Aborted(UserNotFound))
    // without access the join is ignored
    ensures r.1 == Dropped <==>
      DocumentRepository.FindById(t.documents, documentId).Some? && UserRepository.FindByUsername(t.users, username).Some? &&
      !HasDocumentAccess(t.collaborators, documentId, t.documents[DocumentRepository.FindById(t.documents, documentId).value].owner,
                         UserRepository.FindByUsername(t.users, username).value.id)
    ensures r.1 == Dropped || r.1.Aborted? ==> r.0 == t
    // with access, the pair's row is upserted unless the pair lookup throws
    ensures r.1 == Aborted(NonUniqueResult) <==>
      DocumentRepository.FindById(t.documents, documentId).Some? && UserRepository.FindByUsername(t.users, username).Some? &&
      HasDocumentAccess(t.collaborators, documentId, t.documents[DocumentRepository.FindById(t.documents, documentId).value].owner,
                        UserRepository.FindByUsername(t.users, username).value.id) &&
      FindByDocumentAndUser(t.collaborators, documentId, UserRepository.FindByUsername(t.users, username).value.id).Ambiguous?
    ensures r.1 == Handled <==>
      DocumentRepository.FindById(t.documents, documentId).Some? && UserRepository.FindByUsername(t.users, username).Some? &&
      HasDocumentAccess(t.collaborators, documentId, t.documents[DocumentRepository.FindById(t.documents, documentId).value].owner,
                        UserRepository.FindByUsername(t.users, username).value.id) &&
      !FindByDocumentAndUser(t.collaborators, documentId, UserRepository.FindByUsername(t.users, username).value.id).Ambiguous?
    ensures r.1 == Handled ==>
      DocumentRepository.FindById(t.documents, documentId).Some? && UserRepository.FindByUsername(t.users, username).Some? &&
      Joined(t, documentId, UserRepository.FindByUsername(t.users, username).value, now).Some? &&
      r.0 == Joined(t, documentId, UserRepository.FindByUsername(t.users, username).value, now).value
    ensures Valid(t) ==> Valid(r.0)
  {
    match DocumentRepository.FindById(t.documents, documentId)
    case None => (t, Aborted(DocumentNotFound))
    case Some(i) =>
      match UserRepository.FindByUsername(t.users, username)
      case None => (t, Aborted(UserNotFound))
      case Some(u) =>
        if !HasDocumentAccess(t.collaborators, documentId, t.documents[i].owner, u.id) then (t, Dropped)
        else
          match Joined(t, documentId, u, now)
          case None => (t, Aborted(NonUniqueResult))
          case Some(t1) => (t1, Handled)
  }

  /** The writes of an accepted join: the pair's row is upserted (a new row
      reads; an existing one is reactivated and keeps its permission and
      join time), then one activity and one message; `None` when the pair
      lookup throws. */
  function Joined(t: Tables, documentId: Id, u: UserRecord, now: Time): (r: Option<Tables>)
    ensures r.None? <==> FindByDocumentAndUser(t.collaborators, documentId, u.id).Ambiguous?
    // afterwards the pair has exactly one row, and it is active and fresh
    ensures r.Some? ==>
      (match FindByDocumentAndUser(r.value.collaborators, documentId, u.id)
       case Unique(k) => r.value.collaborators[k].isActive && r.value.collaborators[k].lastActivityAt == now
       case _ => false) &&
      ExistsByDocumentAndUserAndIsActiveTrue(r.value.collaborators, documentId, u.id)
    ensures r.Some? ==>
      match FindByDocumentAndUser(t.collaborators, documentId, u.id)
      case Unique(k) =>
        r.value.collaborators == t.collaborators[k := t.collaborators[k].(isActive := true, lastActivityAt := now)]
      case Absent =>
        r.value.collaborators == t.collaborators + [CollaboratorRecord(Some(t.nextId), documentId, u.id, "read", true, now, now)]
      case Ambiguous => false
    // one activity and one message, the document untouched
    ensures r.Some? ==>
      |r.value.activities| == |t.activities| + 1 && r.value.activities[..|t.activities|] == t.activities &&
      r.value.activities[|t.activities|].activityType == UserJoined &&
      r.value.activities[|t.activities|].user == u.id && r.value.activities[|t.activities|].document == documentId &&
      r.value.outbox == t.outbox + [Publication(Topic(documentId), UserJoinedMessage(documentId, UserRef(u.id, u.username), now))] &&
      r.value.documents == t.documents && r.value.users == t.users && r.value.versions == t.versions && r.value.files == t.files
    ensures r.Some? && Valid(t) ==> Valid(r.value)
  {
    var joined := (
      match FindByDocumentAndUser(t.collaborators, documentId, u.id)
      case Ambiguous => None
      case Absent =>
        var inserted := InsertCollaborator(t, CollaboratorRecord(None, documentId, u.id, "read", true, now, now));
        JoinedRowIsUnique(t.collaborators, documentId, u.id, CollaboratorRecord(Some(t.nextId), documentId, u.id, "read", true, now, now));
        Some(inserted)
      case Unique(k) =>
        RejoinedRowIsUnique(t.collaborators, documentId, u.id, k, now);
        Some(SaveCollaboratorAt(t, k, t.collaborators[k].(isActive := true, lastActivityAt := now))));
    match joined
    case None => None
    case Some(t1) =>
      InsertCollaboratorKeepsValid(t, CollaboratorRecord(None, documentId, u.id, "read", true, now, now));
      var t2 := AppendActivity(t1, documentId, u.id, UserJoined, JoinedEditing(u.username), now);
      AppendActivityKeepsValid(t1, documentId, u.id, UserJoined, JoinedEditing(u.username), now);
      Some(Publish(t2, Topic(documentId), UserJoinedMessage(documentId, UserRef(u.id, u.username), now)))
  }

  /** Appending the pair's first row makes the pair's lookup find it. */
  lemma JoinedRowIsUnique(rows: seq<CollaboratorRecord>, document: Id, user: Id, row: CollaboratorRecord)
    requires FindByDocumentAndUser(rows, document, user).Absent?
    requires IsPair(row, document, user) && row.isActive
    ensures FindByDocumentAndUser(rows + [row], document, user) == Unique(|rows|)
    ensures ExistsByDocumentAndUserAndIsActiveTrue(rows + [row], document, user)
  {
    var rows' := rows + [row];
    assert rows'[|rows|] == row;
    assert forall j :: 0 <= j < |rows| ==> rows'[j] == rows[j];
  }

  /** Reactivating the pair's only row keeps it the only one. */
  lemma RejoinedRowIsUnique(rows: seq<CollaboratorRecord>, document: Id, user: Id, k: nat, now: Time)
    requires FindByDocumentAndUser(rows, document, user) == Unique(k)
    ensures k < |rows|
    ensures FindByDocumentAndUser(rows[k := rows[k].(isActive := true, lastActivityAt := now)], document, user) == Unique(k)
    ensures ExistsByDocumentAndUserAndIsActiveTrue(rows[k := rows[k].(isActive := true, lastActivityAt := now)], document, user)
  {
    var rows' := rows[k := rows[k].(isActive := true, lastActivityAt := now)];
    assert IsPair(rows'[k], document, user);
  }

  /** `handleDocumentLeave`: no permission check at all. */
  function DocumentLeave(t: Tables, username: string, documentId: Id, now: Time): (r: (Tables, HandlerOutcome))
    ensures DocumentRepository.FindById(t.documents, documentId).None? ==> r == (t, Aborted(DocumentNotFound))
    ensures DocumentRepository.FindById(t.documents, documentId).Some? && UserRepository.FindByUsername(t.users, username).None? ==>
      r == (t, Aborted(UserNotFound))
    ensures r.1 != Dropped
    ensures r.1.Aborted? ==> r.0 == t
    ensures r.1 == Handled <==>
      DocumentRepository.FindById(t.documents, documentId).Some? && UserRepository.FindByUsername(t.users, username).Some? &&
      !FindByDocumentAndUser(t.collaborators, documentId, UserRepository.FindByUsername(t.users, username).value.id).Ambiguous?
    ensures r.1 == Handled ==>
      Left(t, documentId, UserRepository.FindByUsername(t.users, username).value, now).Some? &&
      r.0 == Left(t, documentId, UserRepository.FindByUsername(t.users, username).value, now).value
    ensures Valid(t) ==> Valid(r.0)
  {
    match DocumentRepository.FindById(t.documents, documentId)
    case None => (t, Aborted(DocumentNotFound))
    case Some(i) =>
      match UserRepository.FindByUsername(t.users, username)
      case None => (t, Aborted(UserNotFound))
      case Some(u) =>
        match Left(t, documentId, u, now)
        case None => (t, Aborted(NonUniqueResult))
        case Some(t1) => (t1, Handled)
  }

  /** The writes of a leave: the sender's row, if any, is deactivated, and
      one activity and one message follow even when there was no row;
      `None` when the pair lookup throws. */
  function Left(t: Tables, documentId: Id, u: UserRecord, now: Time): (r: Option<Tables>)
    ensures r.None? <==> FindByDocumentAndUser(t.collaborators, documentId, u.id).Ambiguous?
    // the row keeps everything but its flag
    ensures r.Some? ==>
      |r.value.collaborators| == |t.collaborators| &&
      (forall j :: 0 <= j < |t.collaborators| ==>
        r.value.collaborators[j] ==
          if IsPair(t.collaborators[j], documentId, u.id) then t.collaborators[j].(isActive := false)
          else t.collaborators[j]) &&
      !ExistsByDocumentAndUserAndIsActiveTrue(r.value.collaborators, documentId, u.id)
    ensures r.Some? ==>
      r.value.activities == t.activities + [ActivityRecord(t.nextId, documentId, u.id, UserLeft, LeftEditing(u.username), now)] &&
      r.value.outbox == t.outbox + [Publication(Topic(documentId), UserLeftMessage(documentId, UserRef(u.id, u.username), now))] &&
      r.value.documents == t.documents && r.value.users == t.users && r.value.versions == t.versions && r.value.files == t.files
    ensures r.Some? && Valid(t) ==> Valid(r.value)
  {
    var left := (
      match FindByDocumentAndUser(t.collaborators, documentId, u.id)
      case Ambiguous => None
      case Absent => Some(t)
      case Unique(k) => Some(SaveCollaboratorAt(t, k, t.collaborators[k].(isActive := false))));
    match left
    case None => None
    case Some(t1) =>
      var t2 := AppendActivity(t1, documentId, u.id, UserLeft, LeftEditing(u.username), now);
      AppendActivityKeepsValid(t1, documentId, u.id, UserLeft, LeftEditing(u.username), now);
      Some(Publish(t2, Topic(documentId), UserLeftMessage(documentId, UserRef(u.id, u.username), now)))
  }

  /** The realtime message controller over the shared store. */
  class CollaborationWebSocketController {
    const store: Store

    constructor (store: Store)
      ensures this.store == store
    {
      this.store := store;
    }

    /** `updateCollaboratorActivity`. */
    method UpdateCollaboratorActivity(documentId: Id, user: Id, now: Time) returns (ok: bool)
      modifies store
      ensures ok == TouchCollaborator(old(store.Snapshot()), documentId, user, now).Some?
      ensures ok ==> store.Snapshot() == TouchCollaborator(old(store.Snapshot()), documentId, user, now).value
      ensures !ok ==> store.Snapshot() == old(store.Snapshot())
    {
      var lookup := FindByDocumentAndUser(store.collaborators, documentId, user);
      if lookup.Unique? {
        var collaborator := new DocumentCollaborator.Load(store.collaborators[lookup.index]);
        collaborator.SetLastActivityAt(now);
        store.SaveCollaborator(lookup.index, collaborator);
      }
      ok := !lookup.Ambiguous?;
    }

    /** `handleDocumentEdit`. */
    method HandleDocumentEdit(username: string, documentId: Id, content: string, now: Time) returns (outcome: HandlerOutcome)
      modifies store
      ensures (store.Snapshot(), outcome) == EditEvent(old(store.Snapshot()), username, documentId, NewContent(content), now)
    {
      var found := DocumentRepository.FindById(store.documents, documentId);
      if found.None? {
        return Aborted(DocumentNotFound);
      }
      var user := UserRepository.FindByUsername(store.users, username);
      if user.None? {
        return Aborted(UserNotFound);
      }
      var i, u := found.value, user.value;
      var document := new Document.Load(store.documents[i]);
      var verdict := EditPermission(store.collaborators, documentId, document.owner, u.id);
      if verdict == LookupFailed {
        return Aborted(NonUniqueResult);
      } else if verdict == Refused {
        return Dropped;
      }
      ghost var before := store.Snapshot();
      document.SetContent(content);
      document.SetUpdatedAt(Some(now));
      store.SaveDocument(i, document, now);
      assert store.Snapshot() == SaveDocumentAt(before, i, Applied(before.documents[i], NewContent(content)).(updatedAt := Some(now)), now);
      var touched := UpdateCollaboratorActivity(documentId, u.id, now);
      if !touched {
        return Aborted(NonUniqueResult);
      }
      store.Send(Topic(documentId), ContentUpdate(documentId, content, UserRef(u.id, u.username), now));
      outcome := Handled;
    }

    /** `handleTitleUpdate`. */
    method HandleTitleUpdate(username: string, documentId: Id, title: string, now: Time) returns (outcome: HandlerOutcome)
      modifies store
      ensures (store.Snapshot(), outcome) == EditEvent(old(store.Snapshot()), username, documentId, NewTitle(title), now)
    {
      var found := DocumentRepository.FindById(store.documents, documentId);
      if found.None? {
        return Aborted(DocumentNotFound);
      }
      var user := UserRepository.FindByUsername(store.users, username);
      if user.None? {
        return Aborted(UserNotFound);
      }
      var i, u := found.value, user.value;
      var document := new Document.Load(store.documents[i]);
      var verdict := EditPermission(store.collaborators, documentId, document.owner, u.id);
      if verdict == LookupFailed {
        return Aborted(NonUniqueResult);
      } else if verdict == Refused {
        return Dropped;
      }
      ghost var before := store.Snapshot();
      document.SetTitle(title);
      document.SetUpdatedAt(Some(now));
      store.SaveDocument(i, document, now);
      assert store.Snapshot() == SaveDocumentAt(before, i, Applied(before.documents[i], NewTitle(title)).(updatedAt := Some(now)), now);
      var touched := UpdateCollaboratorActivity(documentId, u.id, now);
      if !touched {
        return Aborted(NonUniqueResult);
      }
      store.Send(Topic(documentId), TitleUpdate(documentId, title, UserRef(u.id, u.username), now));
      outcome := Handled;
    }

    /** `handleDocumentJoin`. */
    method HandleDocumentJoin(username: string, documentId: Id, now: Time) returns (outcome: HandlerOutcome)
      modifies store
      ensures (store.Snapshot(), outcome) == DocumentJoin(old(store.Snapshot()), username, documentId, now)
    {
      var found := DocumentRepository.FindById(store.documents, documentId);
      if found.None? {
        return Aborted(DocumentNotFound);
      }
      var user := UserRepository.FindByUsername(store.users, username);
      if user.None? {
        return Aborted(UserNotFound);
      }
      var i, u := found.value, user.value;
      if !HasDocumentAccess(store.collaborators, documentId, store.documents[i].owner, u.id) {
        return Dropped;
      }
      var lookup := FindByDocumentAndUser(store.collaborators, documentId, u.id);
      if lookup.Ambiguous? {
        return Aborted(NonUniqueResult);
      }
      var collaborator: DocumentCollaborator;
      if lookup.Absent? {
        collaborator := new DocumentCollaborator(documentId, u.id, "read", now);
      } else {
        collaborator := new DocumentCollaborator.Load(store.collaborators[lookup.index]);
      }
      collaborator.SetIsActive(true);
      collaborator.SetLastActivityAt(now);
      if lookup.Absent? {
        store.CreateCollaborator(collaborator);
      } else {
        store.SaveCollaborator(lookup.index, collaborator);
      }
      store.AddActivity(documentId, u.id, UserJoined, JoinedEditing(u.username), now);
      store.Send(Topic(documentId), UserJoinedMessage(documentId, UserRef(u.id, u.username), now));
      outcome := Handled;
    }

    /** `handleDocumentLeave`. */
    method HandleDocumentLeave(username: string, documentId: Id, now: Time) returns (outcome: HandlerOutcome)
      modifies store
      ensures (store.Snapshot(), outcome) == DocumentLeave(old(store.Snapshot()), username, documentId, now)
    {
      var found := DocumentRepository.FindById(store.documents, documentId);
      if found.None? {
        return Aborted(DocumentNotFound);
      }
      var user := UserRepository.FindByUsername(store.users, username);
      if user.None? {
        return Aborted(UserNotFound);
      }
      var u := user.value;
      var lookup := FindByDocumentAndUser(store.collaborators, documentId, u.id);
      if lookup.Ambiguous? {
        return Aborted(NonUniqueResult);
      }
      if lookup.Unique? {
        var collaborator := new DocumentCollaborator.Load(store.collaborators[lookup.index]);
        collaborator.SetIsActive(false);
        store.SaveCollaborator(lookup.index, collaborator);
      }
      store.AddActivity(documentId, u.id, UserLeft, LeftEditing(u.username), now);
      store.Send(Topic(documentId), UserLeftMessage(documentId, UserRef(u.id, u.username), now));
      outcome := Handled;
    }
  }
}
