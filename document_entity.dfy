/** The `documents` entity: its columns, their defaults, its constructor,
    its setters and its two JPA lifecycle hooks. */
module DocumentEntity {
  import opened Common

  /** The column values of one document. `id` is null until the row is
      first saved, the timestamps until the persist hook runs, and
      `isPublic` is a nullable `Boolean` that an update may set to null. */
  datatype DocumentRecord = DocumentRecord(
    id: Option<Id>,
    title: string,
    content: string,
    owner: Id,
    createdAt: Option<Time>,
    updatedAt: Option<Time>,
    isPublic: Option<bool>,
    isDeleted: bool,
    viewCount: Int32,
    likeCount: Int32)

  /** The entity object, whose setters and hooks update its fields in place. */
  class Document {
    var id: Option<Id>
    var title: string
    var content: string
    var owner: Id
    var createdAt: Option<Time>
    var updatedAt: Option<Time>
    var isPublic: Option<bool>
    var isDeleted: bool
    var viewCount: Int32
    var likeCount: Int32

    /** The current field values. */
    function Row(): DocumentRecord
      reads this
    {
      DocumentRecord(id, title, content, owner, createdAt, updatedAt, isPublic, isDeleted, viewCount, likeCount)
    }

    /** `new Document(title, content, user)`: the three values verbatim, the
        field initialisers for the flags and counters, everything else null. */
    constructor (title: string, content: string, owner: Id)
      ensures Row() == DocumentRecord(None, title, content, owner, None, None, Some(false), false, 0, 0)
    {
      this.id := None;
      this.title := title;
      this.content := content;
      this.owner := owner;
      this.createdAt := None;
      this.updatedAt := None;
      this.isPublic := Some(false);
      this.isDeleted := false;
      this.viewCount := 0;
      this.likeCount := 0;
    }

    /** The entity as a repository hands it out: its fields are the row's. */
    constructor Load(r: DocumentRecord)
      ensures Row() == r
    {
      id, title, content, owner := r.id, r.title, r.content, r.owner;
      createdAt, updatedAt, isPublic := r.createdAt, r.updatedAt, r.isPublic;
      isDeleted, viewCount, likeCount := r.isDeleted, r.viewCount, r.likeCount;
    }

    /** `@PrePersist`: both timestamps become the current time. */
    method OnCreate(now: Time)
      modifies this
      ensures Row() == old(Row()).(createdAt := Some(now), updatedAt := Some(now))
    {
      createdAt := Some(now);
      updatedAt := Some(now);
    }

    /** `@PreUpdate`: only the modification time is refreshed. */
    method OnUpdate(now: Time)
      modifies this
      ensures Row() == old(Row()).(updatedAt := Some(now))
    {
      updatedAt := Some(now);
    }

    method SetId(v: Option<Id>)
      modifies this
      ensures Row() == old(Row()).(id := v)
    {
      id := v;
    }

    method SetTitle(v: string)
      modifies this
      ensures Row() == old(Row()).(title := v)
    {
      title := v;
    }

    method SetContent(v: string)
      modifies this
      ensures Row() == old(Row()).(content := v)
    {
      content := v;
    }

    /** `setUser`: the owner, by its user id. */
    method SetUser(v: Id)
      modifies this
      ensures Row() == old(Row()).(owner := v)
    {
      owner := v;
    }

    method SetCreatedAt(v: Option<Time>)
      modifies this
      ensures Row() == old(Row()).(createdAt := v)
    {
      createdAt := v;
    }

    method SetUpdatedAt(v: Option<Time>)
      modifies this
      ensures Row() == old(Row()).(updatedAt := v)
    {
      updatedAt := v;
    }

    method SetIsPublic(v: Option<bool>)
      modifies this
      ensures Row() == old(Row()).(isPublic := v)
    {
      isPublic := v;
    }

    method SetIsDeleted(v: bool)
      modifies this
      ensures Row() == old(Row()).(isDeleted := v)
    {
      isDeleted := v;
    }

    method SetViewCount(v: Int32)
      modifies this
      ensures Row() == old(Row()).(viewCount := v)
    {
      viewCount := v;
    }

    method SetLikeCount(v: Int32)
      modifies this
      ensures Row() == old(Row()).(likeCount := v)
    {
      likeCount := v;
    }
  }
}
