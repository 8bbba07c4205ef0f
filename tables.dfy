/** The database the controllers work on: every table the core reads or
    writes, the blob store of uploaded files and the outbox of realtime
    publications. `Tables` is a snapshot of it; `Store` is the mutable
    object the controllers share, whose methods are the repository `save`
    and `delete` calls. */
module Persistence {
  import opened Common
  import opened Records
  import opened DocumentEntity
  import opened CollaboratorEntity
  import Seqs
  import DocumentVersionRepository

  /** One state of the whole database. Identity values of every table come
      from the one counter `nextId`. */
  datatype Tables = Tables(
    users: seq<UserRecord>,
    documents: seq<DocumentRecord>,
    collaborators: seq<CollaboratorRecord>,
    versions: seq<VersionRecord>,
    activities: seq<ActivityRecord>,
    files: seq<FileRecord>,
    blobs: set<string>,
    outbox: seq<Publication>,
    nextId: Id)

  /** Usernames and emails are unique among users. */
  predicate UniqueAccounts(users: seq<UserRecord>) {
    forall i, j :: 0 <= i < j < |users| ==> users[i].username != users[j].username && users[i].email != users[j].email
  }

  /** Every stored document has an id, issued below the counter, and no two
      documents share one. */
  predicate DocumentIdsIssued(documents: seq<DocumentRecord>, nextId: Id) {
    (forall i :: 0 <= i < |documents| ==> documents[i].id.Some? && documents[i].id.value < nextId) &&
    (forall i, j :: 0 <= i < j < |documents| ==> documents[i].id != documents[j].id)
  }

  /** The versions of each document are numbered 1, 2, 3, ... in the order
      they were stored: each one's number is one more than the count of the
      same document's versions before it. */
  predicate VersionsNumbered(versions: seq<VersionRecord>) {
    forall i :: 0 <= i < |versions| ==>
      versions[i].versionNumber == VersionCount(versions[..i], versions[i].document) + 1
  }

  /** How many versions of `document` there are: what `countByDocument` returns. */
  function VersionCount(versions: seq<VersionRecord>, document: Id): nat {
    |Seqs.Filter(versions, DocumentVersionRepository.OfDocument(document))|
  }

  predicate Valid(t: Tables) {
    UniqueAccounts(t.users) && DocumentIdsIssued(t.documents, t.nextId) && VersionsNumbered(t.versions)
  }

  /** A state-changing step on a snapshot, one per repository call. */

  function SaveDocumentAt(t: Tables, i: nat, row: DocumentRecord, now: Time): Tables
    requires i < |t.documents|
  {
    t.(documents := t.documents[i := row.(updatedAt := Some(now))])
  }

  function InsertDocument(t: Tables, row: DocumentRecord, now: Time): Tables {
    t.(documents := t.documents + [row.(id := Some(t.nextId), createdAt := Some(now), updatedAt := Some(now))],
       nextId := t.nextId + 1)
  }

  function SaveCollaboratorAt(t: Tables, i: nat, row: CollaboratorRecord): Tables
    requires i < |t.collaborators|
  {
    t.(collaborators := t.collaborators[i := row])
  }

  function InsertCollaborator(t: Tables, row: CollaboratorRecord): Tables {
    t.(collaborators := t.collaborators + [row.(id := Some(t.nextId))], nextId := t.nextId + 1)
  }

  function AppendActivity(t: Tables, document: Id, user: Id, kind: ActivityType, description: Description, now: Time): Tables {
    t.(activities := t.activities + [ActivityRecord(t.nextId, document, user, kind, description, now)],
       nextId := t.nextId + 1)
  }

  function AppendVersion(t: Tables, document: Id, number: int, title: string, content: string,
                         changes: Description, author: Id, now: Time): Tables {
    t.(versions := t.versions + [VersionRecord(t.nextId, document, number, title, content, changes, author, now)],
       nextId := t.nextId + 1)
  }

  function InsertUser(t: Tables, username: string, email: string, password: string, roles: set<Role>): Tables {
    t.(users := t.users + [UserRecord(t.nextId, username, email, password, roles)], nextId := t.nextId + 1)
  }

  function InsertFile(t: Tables, fileName: string, originalName: Option<string>, fileType: Option<string>,
                      fileSize: int, filePath: string, fileUrl: string, owner: Id, document: Option<Id>, now: Time): Tables {
    t.(files := t.files + [FileRecord(t.nextId, fileName, originalName, fileType, fileSize, filePath, fileUrl, owner, document, now)],
       nextId := t.nextId + 1)
  }

  function RemoveFileAt(t: Tables, i: nat): Tables
    requires i < |t.files|
  {
    t.(files := t.files[..i] + t.files[i + 1..])
  }

  function Publish(t: Tables, topic: string, message: Broadcast): Tables {
    t.(outbox := t.outbox + [Publication(topic, message)])
  }

  /** Saving a document under its own id keeps the ids issued and distinct. */
  lemma SaveDocumentKeepsValid(t: Tables, i: nat, row: DocumentRecord, now: Time)
    requires i < |t.documents| && row.id == t.documents[i].id
    ensures Valid(t) ==> Valid(SaveDocumentAt(t, i, row, now))
  {
  }

  /** A new document takes the counter's value, which no document holds yet. */
  lemma InsertDocumentKeepsValid(t: Tables, row: DocumentRecord, now: Time)
    ensures Valid(t) ==> Valid(InsertDocument(t, row, now))
  {
    if Valid(t) {
      var t' := InsertDocument(t, row, now);
      forall i, j | 0 <= i < j < |t'.documents| ensures t'.documents[i].id != t'.documents[j].id {
        if j == |t.documents| {
          assert t'.documents[i] == t.documents[i];
        }
      }
    }
  }

  lemma InsertCollaboratorKeepsValid(t: Tables, row: CollaboratorRecord)
    ensures Valid(t) ==> Valid(InsertCollaborator(t, row))
  {
  }

  lemma AppendActivityKeepsValid(t: Tables, document: Id, user: Id, kind: ActivityType, description: Description, now: Time)
    ensures Valid(t) ==> Valid(AppendActivity(t, document, user, kind, description, now))
  {
  }

  lemma InsertFileKeepsValid(t: Tables, fileName: string, originalName: Option<string>, fileType: Option<string>,
                             fileSize: int, filePath: string, fileUrl: string, owner: Id, document: Option<Id>, now: Time)
    ensures Valid(t) ==> Valid(InsertFile(t, fileName, originalName, fileType, fileSize, filePath, fileUrl, owner, document, now))
  {
  }

  /** A user whose username and email are both unused keeps accounts unique. */
  lemma InsertUserKeepsValid(t: Tables, username: string, email: string, password: string, roles: set<Role>)
    requires forall u :: u in t.users ==> u.username != username && u.email != email
    ensures Valid(t) ==> Valid(InsertUser(t, username, email, password, roles))
  {
    if Valid(t) {
      var t' := InsertUser(t, username, email, password, roles);
      forall i, j | 0 <= i < j < |t'.users|
        ensures t'.users[i].username != t'.users[j].username && t'.users[i].email != t'.users[j].email
      {
        if j == |t.users| {
          assert t'.users[i] == t.users[i] && t.users[i] in t.users;
        }
      }
    }
  }

  /** A version numbered one past the document's count keeps the numbering. */
  lemma AppendVersionKeepsValid(t: Tables, document: Id, title: string, content: string,
                                changes: Description, author: Id, now: Time)
    ensures Valid(t) ==> Valid(AppendVersion(t, document, VersionCount(t.versions, document) + 1, title, content, changes, author, now))
  {
    if Valid(t) {
      var n := VersionCount(t.versions, document) + 1;
      var vs := AppendVersion(t, document, n, title, content, changes, author, now).versions;
      forall i | 0 <= i < |vs|
        ensures vs[i].versionNumber == VersionCount(vs[..i], vs[i].document) + 1
      {
        if i < |t.versions| {
          assert vs[..i] == t.versions[..i];
        } else {
          assert vs[..i] == t.versions;
        }
      }
    }
  }

  /** Under the numbering, no version of a document is numbered above the
      document's count, so the next restore snapshot is strictly the newest. */
  lemma {:induction false} NumbersWithinCount(versions: seq<VersionRecord>, document: Id)
    requires VersionsNumbered(versions)
    ensures forall v :: v in versions && v.document == document ==>
      v.versionNumber <= VersionCount(versions, document)
  {
    if versions != [] {
      var init := versions[..|versions| - 1];
      var last := versions[|versions| - 1];
      assert versions == init + [last];
      assert VersionsNumbered(init) by {
        forall i | 0 <= i < |init|
          ensures init[i].versionNumber == VersionCount(init[..i], init[i].document) + 1
        {
          assert init[..i] == versions[..i];
        }
      }
      NumbersWithinCount(init, document);
      Seqs.FilterSnoc(init, last, DocumentVersionRepository.OfDocument(document));
      assert versions[..|versions| - 1] == init;
    }
  }

  /** The database as the controllers share it. */
  class Store {
    var users: seq<UserRecord>
    var documents: seq<DocumentRecord>
    var collaborators: seq<CollaboratorRecord>
    var versions: seq<VersionRecord>
    var activities: seq<ActivityRecord>
    var files: seq<FileRecord>
    var blobs: set<string>
    var outbox: seq<Publication>
    var nextId: Id

    function Snapshot(): Tables
      reads this
    {
      Tables(users, documents, collaborators, versions, activities, files, blobs, outbox, nextId)
    }

    constructor (initial: Tables)
      ensures Snapshot() == initial
    {
      users, documents, collaborators := initial.users, initial.documents, initial.collaborators;
      versions, activities, files := initial.versions, initial.activities, initial.files;
      blobs, outbox, nextId := initial.blobs, initial.outbox, initial.nextId;
    }

    /** `documentRepository.save` of a loaded document: the update hook runs
        on the entity, then the row at `i` takes its values. */
    method SaveDocument(i: nat, d: Document, now: Time)
      requires i < |documents|
      modifies this, d
      ensures d.Row() == old(d.Row()).(updatedAt := Some(now))
      ensures Snapshot() == SaveDocumentAt(old(Snapshot()), i, old(d.Row()), now)
    {
      d.OnUpdate(now);
      documents := documents[i := d.Row()];
    }

    /** `documentRepository.save` of a new document: it is given the next id,
        the persist hook runs, and the row is appended. */
    method CreateDocument(d: Document, now: Time)
      modifies this, d
      ensures d.Row() == old(d.Row()).(id := Some(old(nextId)), createdAt := Some(now), updatedAt := Some(now))
      ensures Snapshot() == InsertDocument(old(Snapshot()), old(d.Row()), now)
    {
      d.SetId(Some(nextId));
      d.OnCreate(now);
      documents := documents + [d.Row()];
      nextId := nextId + 1;
    }

    /** `documentCollaboratorRepository.save` of a loaded row. */
    method SaveCollaborator(i: nat, c: DocumentCollaborator)
      requires i < |collaborators|
      modifies this
      ensures Snapshot() == SaveCollaboratorAt(old(Snapshot()), i, c.Row())
    {
      collaborators := collaborators[i := c.Row()];
    }

    /** `documentCollaboratorRepository.save` of a new row. */
    method CreateCollaborator(c: DocumentCollaborator)
      modifies this, c
      ensures c.Row() == old(c.Row()).(id := Some(old(nextId)))
      ensures Snapshot() == InsertCollaborator(old(Snapshot()), old(c.Row()))
    {
      c.SetId(Some(nextId));
      collaborators := collaborators + [c.Row()];
      nextId := nextId + 1;
    }

    /** `documentActivityRepository.save(new DocumentActivity(...))`. */
    method AddActivity(document: Id, user: Id, kind: ActivityType, description: Description, now: Time)
      modifies this
      ensures Snapshot() == AppendActivity(old(Snapshot()), document, user, kind, description, now)
    {
      activities := activities + [ActivityRecord(nextId, document, user, kind, description, now)];
      nextId := nextId + 1;
    }

    /** `documentVersionRepository.save(new DocumentVersion(...))`. */
    method AddVersion(document: Id, number: int, title: string, content: string, changes: Description, author: Id, now: Time)
      modifies this
      ensures Snapshot() == AppendVersion(old(Snapshot()), document, number, title, content, changes, author, now)
    {
      versions := versions + [VersionRecord(nextId, document, number, title, content, changes, author, now)];
      nextId := nextId + 1;
    }

    /** `userRepository.save` of a new user. */
    method AddUser(username: string, email: string, password: string, roles: set<Role>)
      modifies this
      ensures Snapshot() == InsertUser(old(Snapshot()), username, email, password, roles)
    {
      users := users + [UserRecord(nextId, username, email, password, roles)];
      nextId := nextId + 1;
    }

    /** `fileRepository.save` of a new file record. */
    method AddFile(fileName: string, originalName: Option<string>, fileType: Option<string>, fileSize: int,
                   filePath: string, fileUrl: string, owner: Id, document: Option<Id>, now: Time)
      modifies this
      ensures Snapshot() == InsertFile(old(Snapshot()), fileName, originalName, fileType, fileSize, filePath, fileUrl, owner, document, now)
    {
      files := files + [FileRecord(nextId, fileName, originalName, fileType, fileSize, filePath, fileUrl, owner, document, now)];
      nextId := nextId + 1;
    }

    /** `fileRepository.delete` of the record at `i`. */
    method DeleteFile(i: nat)
      requires i < |files|
      modifies this
      ensures Snapshot() == RemoveFileAt(old(Snapshot()), i)
    {
      files := files[..i] + files[i + 1..];
    }

    /** `Files.copy` to `path` (replacing any blob there). */
    method WriteBlob(path: string)
      modifies this
      ensures Snapshot() == old(Snapshot()).(blobs := old(blobs) + {path})
    {
      blobs := blobs + {path};
    }

    /** `Files.delete` of `path`. */
    method RemoveBlob(path: string)
      modifies this
      ensures Snapshot() == old(Snapshot()).(blobs := old(blobs) - {path})
    {
      blobs := blobs - {path};
    }

    /** `messagingTemplate.convertAndSend(topic, message)`. */
    method Send(topic: string, message: Broadcast)
      modifies this
      ensures Snapshot() == Publish(old(Snapshot()), topic, message)
    {
      outbox := outbox + [Publication(topic, message)];
    }
  }
}
