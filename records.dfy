/** Row types of the tables the core reads and appends to without an entity
    class of its own in this model (users, roles, versions, activities,
    files), and the messages the realtime engine publishes. */
module Records {
  import opened Common

  datatype ERole = RoleUser | RoleModerator | RoleAdmin

  datatype Role = Role(id: Id, name: ERole)

  /** A registered user; `password` holds the encoder's output. */
  datatype UserRecord = UserRecord(id: Id, username: string, email: string, password: string, roles: set<Role>)

  /** The human-readable text stored with an activity or a version; the
      controllers render it (in Chinese) from these parts. */
  datatype Description =
    | JoinedEditing(username: string)
    | LeftEditing(username: string)
    | InvitedCollaborator(username: string)
    | RestoredTo(versionNumber: int)

  datatype ActivityType = UserJoined | UserLeft | CollaboratorInvited | VersionRestored

  /** One entry of the append-only audit trail. */
  datatype ActivityRecord = ActivityRecord(
    id: Id, document: Id, user: Id, activityType: ActivityType, description: Description, createdAt: Time)

  /** One full-content snapshot of a document. */
  datatype VersionRecord = VersionRecord(
    id: Id, document: Id, versionNumber: int, title: string, content: string,
    changes: Description, author: Id, createdAt: Time)

  /** An uploaded file: the stored name, the client's name and type (either
      may be null), the blob path, the public URL and its attachments. */
  datatype FileRecord = FileRecord(
    id: Id, fileName: string, originalName: Option<string>, fileType: Option<string>,
    fileSize: int, filePath: string, fileUrl: string, owner: Id, document: Option<Id>, createdAt: Time)

  /** The `user` part of a broadcast: id and username. */
  datatype UserRef = UserRef(id: Id, username: string)

  /** The four message shapes of a document channel, by their `type` field. */
  datatype Broadcast =
    | ContentUpdate(documentId: Id, content: string, user: UserRef, timestamp: Time)   // "content_update"
    | UserJoinedMessage(documentId: Id, user: UserRef, timestamp: Time)                 // "user_joined"
    | UserLeftMessage(documentId: Id, user: UserRef, timestamp: Time)                   // "user_left"
    | TitleUpdate(documentId: Id, title: string, user: UserRef, timestamp: Time)       // "title_update"
  {
    /** The `type` field of the message. */
    function TypeName(): string {
      match this
      case ContentUpdate(_, _, _, _) => "content_update"
      case UserJoinedMessage(_, _, _) => "user_joined"
      case UserLeftMessage(_, _, _) => "user_left"
      case TitleUpdate(_, _, _, _) => "title_update"
    }
  }

  /** One `convertAndSend(topic, message)` call. */
  datatype Publication = Publication(topic: string, message: Broadcast)

  const TopicPrefix := "/topic/document."

  /** The channel of a document: `"/topic/document." + documentId`. */
  function Topic(documentId: Id): (t: string)
    ensures IsPrefix(TopicPrefix, t)
  {
    TopicPrefix + Decimal(documentId)
  }

  /** Distinct documents publish on distinct channels, so no subscriber of
      one document receives another document's messages. */
  lemma TopicInjective(d1: Id, d2: Id)
    requires Topic(d1) == Topic(d2)
    ensures d1 == d2
  {
    assert Decimal(d1) == Topic(d1)[|TopicPrefix|..];
    assert Decimal(d2) == Topic(d2)[|TopicPrefix|..];
    DecimalInjective(d1, d2);
  }
}
