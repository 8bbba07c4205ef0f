# Collaborative document editing service — verified model

This project models the document and collaboration core of a Spring Boot
service for shared rich-text documents: the documents REST controller
(listing, reading with a view counter, creating, updating, soft-deleting,
searching), the collaboration REST controller (version history, activity
trail, collaborator list, invitations, version restore), the realtime
STOMP controller (content and title edits, join, leave, broadcast on a
per-document topic), the file controller (upload, download, listings,
deletion) and account registration. The two entities the controllers
update in place, `Document` and `DocumentCollaborator`, are Dafny classes
with their Java fields, constructors, setters and JPA lifecycle hooks;
the repositories are pure finders over a snapshot of the tables.

Each controller is modelled twice, once as a specification and once as code:

- a pure function over a snapshot `Tables` of the database (users,
  documents, collaborator rows, versions, activities, file records, the
  set of stored blob paths, the outbox of published messages and the id
  counter) returns the new snapshot and the reply. Its postconditions
  state the access rules, error cases and effects;
- a class method over the shared `Store` performs the same steps with the
  entity objects and repository calls of the source. It is proved to
  leave exactly the state, and return exactly the reply, that the
  function describes.

The invariant `Persistence.Valid` has three parts:

- usernames and emails are unique;
- every document id is issued and distinct;
- each document's versions are numbered 1, 2, 3, … in storage order.

Every state-changing operation is proved to preserve it.

Replies have six shapes:

- `Ok` is a 200;
- `BadRequest`, `Forbidden` and `NotFound` are the 400, 403 and 404 answers;
- `ServerError` is a 500 the handler builds itself;
- `Thrown` is an uncaught exception, such as a `RuntimeException("… not found")`.

A realtime handler either handles the message, silently drops it, or
aborts with an exception.

Cross-controller consequences are in `scenarios.dfy`:

- an invitation grants access, and edit permission exactly for "edit";
- leaving revokes a collaborator's access;
- a read-only collaborator cannot edit but can restore any version;
- inviting again a collaborator who has left creates a second row for
  the same (document, user) pair. After that, every single-row lookup of
  the pair throws, so the collaborator's joins and edits abort.

## Model

| member | source | states |
|---|---|---|
| DocumentEntity.Document.constructor | src/main/java/com/example/aispringboot/entity/Document.java:29-47 | title, content and owner verbatim; isPublic and isDeleted false and both counters 0 by the field initialisers; id and timestamps null |
| DocumentEntity.Document.OnCreate | src/main/java/com/example/aispringboot/entity/Document.java:49-53 | the persist hook sets both timestamps to the current time and nothing else |
| DocumentEntity.Document.OnUpdate | src/main/java/com/example/aispringboot/entity/Document.java:55-58 | the update hook refreshes only updatedAt |
| DocumentEntity.Document.SetTitle | src/main/java/com/example/aispringboot/entity/Document.java:65 | only the title changes |
| DocumentEntity.Document.SetContent | src/main/java/com/example/aispringboot/entity/Document.java:68 | only the content changes |
| DocumentEntity.Document.SetUser | src/main/java/com/example/aispringboot/entity/Document.java:71 | only the owner changes |
| DocumentEntity.Document.SetUpdatedAt | src/main/java/com/example/aispringboot/entity/Document.java:77 | only updatedAt changes |
| DocumentEntity.Document.SetIsPublic | src/main/java/com/example/aispringboot/entity/Document.java:80 | only the (nullable) visibility flag changes |
| DocumentEntity.Document.SetIsDeleted | src/main/java/com/example/aispringboot/entity/Document.java:83 | only the soft-delete flag changes |
| DocumentEntity.Document.SetViewCount | src/main/java/com/example/aispringboot/entity/Document.java:86 | only the view counter changes |
| CollaboratorEntity.DocumentCollaborator.constructor | src/main/java/com/example/aispringboot/model/DocumentCollaborator.java:36-42 | document, user and permission verbatim, active, joined and last active now, no id |
| CollaboratorEntity.DocumentCollaborator.SetIsActive | src/main/java/com/example/aispringboot/model/DocumentCollaborator.java:81-83 | only the active flag changes |
| CollaboratorEntity.DocumentCollaborator.SetLastActivityAt | src/main/java/com/example/aispringboot/model/DocumentCollaborator.java:97-99 | only the last-activity time changes |
| DocumentRepository.FindById | src/main/java/com/example/aispringboot/controller/CollaborationWebSocketController.java:46-47 | the found row has the id; none is found exactly when no row (deleted or not) has it |
| DocumentRepository.FindByIdAndIsDeletedFalse | src/main/java/com/example/aispringboot/repository/DocumentRepository.java:19 | the found row has the id and is live; none exactly when every row with the id is deleted |
| DocumentRepository.FindByUserAndIsDeletedFalseOrderByUpdatedAtDesc | src/main/java/com/example/aispringboot/repository/DocumentRepository.java:15 | exactly the user's live documents, newest update first, each as often as stored |
| DocumentRepository.FindByIsPublicTrueAndIsDeletedFalseOrderByUpdatedAtDesc | src/main/java/com/example/aispringboot/repository/DocumentRepository.java:17 | exactly the live documents whose flag is true (null excluded), newest first, as a permutation |
| DocumentRepository.SearchByUserAndTitle | src/main/java/com/example/aispringboot/repository/DocumentRepository.java:21-22 | exactly the user's live documents whose title contains the keyword |
| DocumentRepository.SearchPublicByTitle | src/main/java/com/example/aispringboot/repository/DocumentRepository.java:24-25 | exactly the public live documents whose title contains the keyword |
| DocumentRepository.SearchWithinListing | src/main/java/com/example/aispringboot/repository/DocumentRepository.java:15-25 | every search hit is in the corresponding listing |
| DocumentRepository.EmptyKeywordSearchIsListing | src/main/java/com/example/aispringboot/repository/DocumentRepository.java:15-22 | the empty keyword finds exactly the user's listing |
| DocumentCollaboratorRepository.FindByDocument | src/main/java/com/example/aispringboot/repository/DocumentCollaboratorRepository.java:17 | exactly the rows of the document, active or not |
| DocumentCollaboratorRepository.FindByDocumentAndIsActiveTrue | src/main/java/com/example/aispringboot/repository/DocumentCollaboratorRepository.java:15 | exactly the active rows of the document |
| DocumentCollaboratorRepository.ActiveListFiltersFullList | src/main/java/com/example/aispringboot/repository/DocumentCollaboratorRepository.java:15-17 | the active list is the full list with inactive rows removed, order kept |
| DocumentCollaboratorRepository.FindByDocumentAndUser | src/main/java/com/example/aispringboot/repository/DocumentCollaboratorRepository.java:19 | absent iff no row of the pair; unique iff exactly one (at the index); ambiguous (the single-result query throws) iff two |
| DocumentCollaboratorRepository.ExistsByDocumentAndUserAndIsActiveTrue | src/main/java/com/example/aispringboot/repository/DocumentCollaboratorRepository.java:21 | true iff an active row of the pair exists |
| DocumentCollaboratorRepository.ExistsIffInActiveList | src/main/java/com/example/aispringboot/repository/DocumentCollaboratorRepository.java:15-21 | the exists query agrees with searching the user in the active list |
| DocumentCollaboratorRepository.ExistsOfUniqueRow | src/main/java/com/example/aispringboot/repository/DocumentCollaboratorRepository.java:19-21 | with a single row of the pair, the exists query is that row's flag |
| DocumentVersionRepository.FindById | src/main/java/com/example/aispringboot/controller/CollaborationController.java:192-193 | the version with that id, none iff there is none |
| DocumentVersionRepository.FindByDocumentOrderByVersionNumberDesc | src/main/java/com/example/aispringboot/repository/DocumentVersionRepository.java:13 | exactly the document's versions, highest number first, as a permutation |
| DocumentVersionRepository.FindTopByDocumentOrderByVersionNumberDesc | src/main/java/com/example/aispringboot/repository/DocumentVersionRepository.java:15 | null iff the document has no version; otherwise a stored version of it with the highest number, the head of the history |
| DocumentVersionRepository.CountByDocument | src/main/java/com/example/aispringboot/repository/DocumentVersionRepository.java:17 | the length of the history; zero iff there is none |
| DocumentActivityRepository.FindByDocumentOrderByCreatedAtDesc | src/main/java/com/example/aispringboot/repository/DocumentActivityRepository.java:13 | exactly the document's activities, newest first, as a permutation |
| DocumentActivityRepository.FindTop10ByDocumentOrderByCreatedAtDesc | src/main/java/com/example/aispringboot/repository/DocumentActivityRepository.java:15 | a prefix of the full trail of length min(10, n), the document's, newest first |
| DocumentActivityRepository.TopTenAreNewest | src/main/java/com/example/aispringboot/repository/DocumentActivityRepository.java:13-15 | no activity left out of the ten is newer than one kept |
| FileRepository.FindById | src/main/java/com/example/aispringboot/controller/FileController.java:224-225 | the record with that id, none iff there is none |
| FileRepository.FindByUserOrderByCreatedAtDesc | src/main/java/com/example/aispringboot/repository/FileRepository.java:14 | exactly the user's records, newest first, as a permutation |
| FileRepository.FindByDocumentOrderByCreatedAtDesc | src/main/java/com/example/aispringboot/repository/FileRepository.java:16 | exactly the document's records, newest first, as a permutation |
| FileRepository.FindByUserAndDocumentIsNullOrderByCreatedAtDesc | src/main/java/com/example/aispringboot/repository/FileRepository.java:18 | exactly the user's unattached records, newest first |
| FileRepository.UnattachedFiltersUserList | src/main/java/com/example/aispringboot/repository/FileRepository.java:14-18 | the unattached rows are the user's rows filtered by "no document" |
| FileRepository.ExistsByFileName | src/main/java/com/example/aispringboot/repository/FileRepository.java:20 | true iff a record has that stored name |
| UserRepository.FindByUsername | src/main/java/com/example/aispringboot/controller/CollaborationController.java:244-247 | a user with that name when found; none iff no user has it |
| UserRepository.FindByEmail | src/main/java/com/example/aispringboot/controller/CollaborationController.java:155-156 | a user with that email when found; none iff no user has it |
| UserRepository.ExistsByUsername | src/main/java/com/example/aispringboot/controller/AuthController.java:217 | true iff some user has the name |
| UserRepository.ExistsByEmail | src/main/java/com/example/aispringboot/controller/AuthController.java:225 | true iff some user has the email |
| Access.HasDocumentAccess | src/main/java/com/example/aispringboot/controller/CollaborationWebSocketController.java:212-220 | access iff owner or an active row of the pair exists |
| Access.EditPermission | src/main/java/com/example/aispringboot/controller/CollaborationWebSocketController.java:223-233 | the owner always; otherwise granted only with an active "edit" row, refused when none, failing iff the pair has two rows |
| Access.EditImpliesAccess | src/main/java/com/example/aispringboot/controller/CollaborationWebSocketController.java:212-233 | whoever may edit has access |
| Access.ReaderAccessWithoutEdit | src/main/java/com/example/aispringboot/controller/CollaborationWebSocketController.java:212-233 | an active "read" collaborator has access but no edit permission |
| Access.AnyActiveRowOf | src/main/java/com/example/aispringboot/controller/FileController.java:261-263 | true iff some row of the list is the user's and active |
| Access.FileAccess | src/main/java/com/example/aispringboot/controller/FileController.java:254-264 | owner, or an active row of the user in the document's full list |
| Access.FileAccessAgrees | src/main/java/com/example/aispringboot/controller/FileController.java:254-264 | the file controller's rule equals the shared access rule |
| Persistence.SaveDocumentKeepsValid | src/main/java/com/example/aispringboot/entity/Document.java:55-58 | saving a document under its own id keeps the invariant |
| Persistence.InsertUserKeepsValid | src/main/java/com/example/aispringboot/controller/AuthController.java:215-249 | adding a user whose name and email are unused keeps accounts unique |
| Persistence.AppendVersionKeepsValid | src/main/java/com/example/aispringboot/controller/CollaborationController.java:199-207 | a version numbered count+1 keeps the numbering |
| Persistence.NumbersWithinCount | src/main/java/com/example/aispringboot/controller/CollaborationController.java:202 | under the numbering no version exceeds the count |
| Persistence.Store.SaveDocument | src/main/java/com/example/aispringboot/entity/Document.java:55-58 | saving an existing entity runs the update hook and writes its row in place |
| Persistence.Store.CreateDocument | src/main/java/com/example/aispringboot/entity/Document.java:49-53 | persisting issues an id, runs the persist hook and appends the row |
| CollaborationWebSocket.TouchCollaborator | src/main/java/com/example/aispringboot/controller/CollaborationWebSocketController.java:236-241 | only the pair's row gets the new activity time; fails iff the pair has two rows |
| CollaborationWebSocket.EditEvent | src/main/java/com/example/aispringboot/controller/CollaborationWebSocketController.java:41-78 | lookups throw first; dropped iff no edit permission, with no change; handled iff edit permission and the sender's pair has at most one row; two rows abort with a non-unique result (after the owner's document save, which stays); handled: that document's content (or title) and update time, the sender's row touched, one message on the document's topic, nothing else |
| CollaborationWebSocket.DocumentJoin | src/main/java/com/example/aispringboot/controller/CollaborationWebSocketController.java:82-127 | lookups throw first; dropped iff no access; aborts iff access and the pair has two rows; handled iff access and at most one row, with the effects of `Joined` |
| CollaborationWebSocket.Joined | src/main/java/com/example/aispringboot/controller/CollaborationWebSocketController.java:95-126 | a new "read" row or the old row reactivated; afterwards the pair has one active row; one activity and one join message; documents untouched; invariant kept |
| CollaborationWebSocket.DocumentLeave | src/main/java/com/example/aispringboot/controller/CollaborationWebSocketController.java:131-168 | no access check; handled iff the pair has at most one row; then the effects of `Left` |
| CollaborationWebSocket.Left | src/main/java/com/example/aispringboot/controller/CollaborationWebSocketController.java:141-167 | the pair's row deactivated and otherwise unchanged, no active row left; one activity and one leave message even without a row |
| CollaborationWebSocket.CollaborationWebSocketController.HandleDocumentEdit | src/main/java/com/example/aispringboot/controller/CollaborationWebSocketController.java:41-78 | the store ends as `EditEvent` says for a content change |
| CollaborationWebSocket.CollaborationWebSocketController.HandleTitleUpdate | src/main/java/com/example/aispringboot/controller/CollaborationWebSocketController.java:172-209 | the store ends as `EditEvent` says for a title change |
| CollaborationWebSocket.CollaborationWebSocketController.HandleDocumentJoin | src/main/java/com/example/aispringboot/controller/CollaborationWebSocketController.java:82-127 | the store ends as `DocumentJoin` says |
| CollaborationWebSocket.CollaborationWebSocketController.HandleDocumentLeave | src/main/java/com/example/aispringboot/controller/CollaborationWebSocketController.java:131-168 | the store ends as `DocumentLeave` says |
| CollaborationWebSocket.CollaborationWebSocketController.UpdateCollaboratorActivity | src/main/java/com/example/aispringboot/controller/CollaborationWebSocketController.java:236-241 | the store ends as `TouchCollaborator` says |
| CollaborationWebSocket.JoinedRowIsUnique | src/main/java/com/example/aispringboot/controller/CollaborationWebSocketController.java:98-106 | after adding the pair's first row the lookup finds it uniquely and active |
| CollaborationWebSocket.RejoinedRowIsUnique | src/main/java/com/example/aispringboot/controller/CollaborationWebSocketController.java:98-106 | reactivating the pair's only row keeps it the only one |
| Collaboration.PrincipalAccess | src/main/java/com/example/aispringboot/controller/CollaborationController.java:229-241 | throws iff the user is unknown; granted iff owner or active collaborator |
| Collaboration.DocumentVersions | src/main/java/com/example/aispringboot/controller/CollaborationController.java:48-75 | unknown document throws; the listing iff `PrincipalAccess` grants it, otherwise its refusal or exception; then exactly this document's versions, highest number first, as the version finder returns them |
| Collaboration.DocumentActivities | src/main/java/com/example/aispringboot/controller/CollaborationController.java:80-105 | unknown document throws; the listing iff `PrincipalAccess` grants it, otherwise its refusal or exception; then the first min(10, n) of this document's newest-first trail of n activities, as the top-ten finder returns them |
| Collaboration.DocumentCollaborators | src/main/java/com/example/aispringboot/controller/CollaborationController.java:110-136 | unknown document throws; the listing iff `PrincipalAccess` grants it, otherwise its refusal or exception; then exactly the document's active rows, in the active-row finder's order |
| Collaboration.Invite | src/main/java/com/example/aispringboot/controller/CollaborationController.java:141-176 | unknown document throws; a missing owner row throws; "not owner" iff the owner's username differs; past that, an unknown email throws and an existing active row refuses; accepted iff every check passes; refusals change nothing; success writes what `Invited` states |
| Collaboration.Invited | src/main/java/com/example/aispringboot/controller/CollaborationController.java:163-173 | one active row with the given permission and one activity under the inviter, nothing else |
| Collaboration.InviteKeepsValid | src/main/java/com/example/aispringboot/controller/CollaborationController.java:141-176 | inviting keeps the invariant |
| Collaboration.Restore | src/main/java/com/example/aispringboot/controller/CollaborationController.java:181-226 | succeeds iff the document exists, the caller has access, and the version exists and is this document's; each failure as an iff: unknown document throws, then the access check's refusal or user-not-found throw, then a missing version throws and a foreign one is refused; failures change nothing; success writes what `Restored` states |
| Collaboration.Restored | src/main/java/com/example/aispringboot/controller/CollaborationController.java:198-223 | the current text saved as version count+1, then the document overwritten with the target's text, then one activity |
| Collaboration.RestoredKeepsValid | src/main/java/com/example/aispringboot/controller/CollaborationController.java:198-223 | the restore writes keep the invariant |
| Collaboration.RestoreKeepsValid | src/main/java/com/example/aispringboot/controller/CollaborationController.java:181-226 | restoring keeps the invariant |
| Collaboration.RestoreSnapshotIsNewest | src/main/java/com/example/aispringboot/controller/CollaborationController.java:199-207 | the restore snapshot is numbered above every earlier version of the document |
| Collaboration.CollaborationController.InviteCollaborator | src/main/java/com/example/aispringboot/controller/CollaborationController.java:141-176 | the store ends as `Invite` says |
| Collaboration.CollaborationController.RestoreVersion | src/main/java/com/example/aispringboot/controller/CollaborationController.java:181-226 | the store ends as `Restore` says |
| Documents.MyDocuments | src/main/java/com/example/aispringboot/controller/DocumentController.java:29-37 | exactly the principal's live documents, newest first; the finder's list, so its multiset too |
| Documents.PublicDocuments | src/main/java/com/example/aispringboot/controller/DocumentController.java:40-43 | exactly the public live documents, newest first; the finder's list, so its multiset too |
| Documents.Search | src/main/java/com/example/aispringboot/controller/DocumentController.java:143-157 | a signed-in caller searches their own live documents, an anonymous one the public ones |
| Documents.ReadDocument | src/main/java/com/example/aispringboot/controller/DocumentController.java:46-69 | 404 iff no live row; a null flag throws; 403 iff private and not the owner's; otherwise Ok: the view count goes up by one (with int wrap-around), the save refreshes updatedAt, and the invariant is kept; no other reply |
| Documents.Create | src/main/java/com/example/aispringboot/controller/DocumentController.java:73-87 | a new live document of the caller with the request's text, visibility defaulting to private, a fresh id and both timestamps now |
| Documents.CreatedDocumentIsFound | src/main/java/com/example/aispringboot/controller/DocumentController.java:73-87 | on a valid state the new document is the live row its id finds |
| Documents.Update | src/main/java/com/example/aispringboot/controller/DocumentController.java:91-115 | 404 iff no live row; 403 iff not the owner; otherwise title, content and (possibly null) flag overwritten and updatedAt now |
| Documents.Delete | src/main/java/com/example/aispringboot/controller/DocumentController.java:119-140 | 404 iff no live row; 403 iff not the owner; otherwise only the delete flag and updatedAt change |
| Documents.DeleteTwiceIsNotFound | src/main/java/com/example/aispringboot/controller/DocumentController.java:119-140 | after a delete the document is not found by delete or read and not listed |
| Documents.DocumentController.GetDocument | src/main/java/com/example/aispringboot/controller/DocumentController.java:46-69 | the store ends as `ReadDocument` says |
| Documents.DocumentController.CreateDocument | src/main/java/com/example/aispringboot/controller/DocumentController.java:73-87 | the store ends as `Create` says |
| Documents.DocumentController.UpdateDocument | src/main/java/com/example/aispringboot/controller/DocumentController.java:91-115 | the store ends as `Update` says |
| Documents.DocumentController.DeleteDocument | src/main/java/com/example/aispringboot/controller/DocumentController.java:119-140 | the store ends as `Delete` says |
| Files.LastIndexOf | src/main/java/com/example/aispringboot/controller/FileController.java:70-71 | the last position of the character; none iff absent |
| Files.Extension | src/main/java/com/example/aispringboot/controller/FileController.java:68-72 | empty for a null name or one without a dot; otherwise the suffix from the last dot, with no further dot |
| Files.StoredName | src/main/java/com/example/aispringboot/controller/FileController.java:73 | the random identifier followed by the extension |
| Files.FileUrl | src/main/java/com/example/aispringboot/controller/FileController.java:92 | the download prefix followed by the stored name, which can be read back |
| Files.Upload | src/main/java/com/example/aispringboot/controller/FileController.java:54-127 | an empty upload is refused and a failed copy is a 500, both with no change; once stored, an unknown user and then an unknown document throw and leave the blob behind; refused access deletes it, or is a 500 keeping it when that delete fails; success iff non-empty, stored, a known user and no document or an accessible one, and then one blob and one record |
| Files.MayDelete | src/main/java/com/example/aispringboot/controller/FileController.java:230-235 | the uploader, or the owner of the attached document |
| Files.Delete | src/main/java/com/example/aispringboot/controller/FileController.java:222-251 | succeeds iff the file and user exist, the caller may delete and the blob delete does not fail; each failure as an iff once the checks before it pass: unknown file, unknown user, dangling document, not uploader or document owner, failed blob delete (a 500); then blob and record are gone; anything else changes nothing |
| Files.RecordNamed | src/main/java/com/example/aispringboot/controller/FileController.java:138-141 | a record with that stored name that no earlier record shares; none iff none exists |
| Files.Download | src/main/java/com/example/aispringboot/controller/FileController.java:131-159 | 404 iff no blob; the record's type or octet-stream; the record's client name (null printed as "null") or the requested name in the attachment header |
| Files.MyFiles | src/main/java/com/example/aispringboot/controller/FileController.java:164-185 | exactly the caller's records, newest first as the owner finder returns them; throws iff the user is unknown |
| Files.DocumentFiles | src/main/java/com/example/aispringboot/controller/FileController.java:190-217 | unknown document, then unknown user, throw; the listing iff file access, otherwise an access-denied refusal; then exactly the document's records, newest first as the document finder returns them |
| Files.FileController.UploadFile | src/main/java/com/example/aispringboot/controller/FileController.java:54-127 | the store ends as `Upload` says |
| Files.FileController.DeleteFile | src/main/java/com/example/aispringboot/controller/FileController.java:222-251 | the store ends as `Delete` says |
| Auth.Register | src/main/java/com/example/aispringboot/controller/AuthController.java:197-260 | the password length, username and email checks run in order and refuse without change; a missing role is a 500; success appends one user with the encoded password and the single role |
| Auth.RegisteredUserIsFound | src/main/java/com/example/aispringboot/controller/AuthController.java:215-249 | a registered user is found by name and email, and registering the name again is refused |
| Auth.AuthController.RegisterUser | src/main/java/com/example/aispringboot/controller/AuthController.java:197-260 | the store ends as `Register` says |
| Records.Topic | src/main/java/com/example/aispringboot/controller/CollaborationWebSocketController.java:77 | the channel is the document prefix followed by the id |
| Records.TopicInjective | src/main/java/com/example/aispringboot/controller/CollaborationWebSocketController.java:77 | distinct documents publish on distinct channels |
| Scenarios.InviteGrantsAccess | src/main/java/com/example/aispringboot/controller/CollaborationController.java:159-166 | after an invitation the invitee has access, and may edit iff invited with "edit" |
| Scenarios.LeaveRevokesAccess | src/main/java/com/example/aispringboot/controller/CollaborationWebSocketController.java:131-168 | after leaving, a non-owner's join is dropped and the listings refuse them |
| Scenarios.ReaderMayRestore | src/main/java/com/example/aispringboot/controller/CollaborationController.java:181-190 | a read-only collaborator's edit is dropped while their restore succeeds |
| Scenarios.ReinviteAfterLeaveDuplicatesRow | src/main/java/com/example/aispringboot/controller/CollaborationController.java:159-166 | re-inviting after a leave duplicates the pair's row; the pair lookup then throws and joins abort |

## Left out

- Transport and framework: STOMP payload parsing, HTTP binding, JSON response maps, JWT and sign-in, `@PreAuthorize` role checks, and the debug endpoints of the authentication controller. Only `registerUser` of that controller is modelled.
- Concurrency and transactions: every request runs alone against one snapshot.
- Time: the several `LocalDateTime.now()` readings of one request are one parameter `now`.
- Identity columns: one shared id counter replaces the per-table identity columns.
- SQL `LIKE`: the search keyword is matched as a plain substring. Wildcards in the keyword, collation and a null keyword are not modelled.
- Password length: it is counted in characters. Java counts UTF-16 code units.
- Bean validation of `SignupRequest` is not modelled.
- Request fields: a request that carries a null title, content, email or permission is not modelled; strings are never null. A null `isPublic` in an update is modelled.
- User and role lookup: `UserRepository.java` and `RoleRepository.java` are not part of this model. User finders follow their Spring Data names, and the `ROLE_USER` lookup is a parameter.
- Other entities: the `File`, `DocumentVersion`, `DocumentActivity`, `User` and `Role` entity classes are not part of this model. Their rows are records, and their creation times are `now`.
- File I/O:
  - the blob store is a set of paths;
  - creating the upload directory and copying the stream are one `copyFails` flag, and deleting a blob is one `deleteFails` flag;
  - path resolution is written as "dir/name";
  - media-type parsing errors and `MalformedURLException` are not modelled;
  - `exists() && isReadable()` is membership in the set.
- Random names: the UUID of a stored file is a parameter, and the model does not assume it is fresh.
- Lazy references: a proxy whose row is missing throws; it is modelled as `Thrown(DanglingReference)` where a decision depends on it (the document owner in an invitation, the attached document of a file). The response maps of the version, activity and collaborator listings also read each row's user, and a missing user there is not modelled; no modelled operation removes a user row.
- Ordering ties: `ORDER BY … DESC` leaves the order of equal keys unspecified, but the model keeps storage order among documents with the same `updatedAt` and activities or files with the same `createdAt`. For activities this also decides which tied rows the top ten keep. No contract depends on the tie order.
- Text rendering: activity descriptions are stored as structured values (`Description`), not as rendered Chinese text.
- Messages: broadcast timestamps are the request's `now`, not its ISO string.
- Documents.ReadDocument: does not model a null `viewCount`, which no modelled path can store.
