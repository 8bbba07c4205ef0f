/** The document REST endpoints: listings and search (read only), reading
    one document (which counts the view), creating, updating and
    soft-deleting. The principal, when there is one, is given by its user
    id; `None` stands for an anonymous request. */
module Documents {
  import opened Common
  import opened DocumentEntity
  import opened DocumentRepository
  import opened Persistence

  /** `getMyDocuments`. */
  function MyDocuments(t: Tables, principal: Id): (r: seq<DocumentRecord>)
    ensures forall d :: d in r <==> d in t.documents && d.owner == principal && !d.isDeleted
    ensures r == FindByUserAndIsDeletedFalseOrderByUpdatedAtDesc(t.documents, principal)
    ensures forall i, j :: 0 <= i < j < |r| ==> UpdatedAtKey(r[i]) >= UpdatedAtKey(r[j])
  {
    FindByUserAndIsDeletedFalseOrderByUpdatedAtDesc(t.documents, principal)
  }

  /** `getPublicDocuments`. */
  function PublicDocuments(t: Tables): (r: seq<DocumentRecord>)
    ensures forall d :: d in r <==> d in t.documents && d.isPublic == Some(true) && !d.isDeleted
    ensures r == FindByIsPublicTrueAndIsDeletedFalseOrderByUpdatedAtDesc(t.documents)
    ensures forall i, j :: 0 <= i < j < |r| ==> UpdatedAtKey(r[i]) >= UpdatedAtKey(r[j])
  {
    FindByIsPublicTrueAndIsDeletedFalseOrderByUpdatedAtDesc(t.documents)
  }

  /** `searchDocuments`: a signed-in principal searches their own
      documents, an anonymous caller the public ones. */
  function Search(t: Tables, principal: Option<Id>, keyword: string): (r: seq<DocumentRecord>)
    ensures forall d :: d in r ==> d in t.documents && !d.isDeleted && Contains(d.title, keyword)
    ensures principal.Some? ==> forall d :: d in r <==> d in MyDocuments(t, principal.value) && Contains(d.title, keyword)
    ensures principal.None? ==> forall d :: d in r <==> d in PublicDocuments(t) && Contains(d.title, keyword)
  {
    match principal
    case Some(user) => SearchByUserAndTitle(t.documents, user, keyword)
    case None => SearchPublicByTitle(t.documents, keyword)
  }

  /** `getDocument`. The visibility flag is unboxed first, so a null flag
      throws even for the owner. */
  function ReadDocument(t: Tables, principal: Option<Id>, id: Id, now: Time): (r: (Tables, Reply<DocumentRecord>))
    // a missing or deleted id is not found; refusals change nothing
    ensures r.1 == NotFound <==> FindByIdAndIsDeletedFalse(t.documents, id).None?
    ensures !r.1.Ok? ==> r.0 == t
    ensures r.1 == Forbidden <==>
      FindByIdAndIsDeletedFalse(t.documents, id).Some? &&
      (var d := t.documents[FindByIdAndIsDeletedFalse(t.documents, id).value];
       d.isPublic == Some(false) && principal != Some(d.owner))
    ensures r.1 == Thrown(NullVisibility) <==>
      FindByIdAndIsDeletedFalse(t.documents, id).Some? &&
      t.documents[FindByIdAndIsDeletedFalse(t.documents, id).value].isPublic.None?
    // an authorised read counts one view and saves the row, nothing else
    ensures r.1.Ok? ==>
      var i := FindByIdAndIsDeletedFalse(t.documents, id).value;
      var d := t.documents[i];
      (d.isPublic == Some(true) || principal == Some(d.owner)) &&
      r.1.value == d.(viewCount := Int32Inc(d.viewCount), updatedAt := Some(now)) &&
      r.0 == t.(documents := t.documents[i := r.1.value]) &&
      (d.viewCount < Int32Max ==> r.1.value.viewCount as int == d.viewCount as int + 1)
    // the four outcomes are the only ones, and the count keeps the invariant
    ensures r.1.Ok? || r.1 == NotFound || r.1 == Forbidden || r.1 == Thrown(NullVisibility)
    ensures Valid(t) ==> Valid(r.0)
  {
    match FindByIdAndIsDeletedFalse(t.documents, id)
    case None => (t, NotFound)
    case Some(i) =>
      var d := t.documents[i];
      match d.isPublic
      case None => (t, Thrown(NullVisibility))
      case Some(isPublic) =>
        if isPublic || principal == Some(d.owner) then
          SaveDocumentKeepsValid(t, i, d.(viewCount := Int32Inc(d.viewCount)), now);
          var saved := SaveDocumentAt(t, i, d.(viewCount := Int32Inc(d.viewCount)), now);
          (saved, Ok(saved.documents[i]))
        else (t, Forbidden)
  }

  /** The row `createDocument` builds before saving it. */
  function NewDocument(principal: Id, title: string, content: string, isPublic: Option<bool>): DocumentRecord {
    DocumentRecord(None, title, content, principal, None, None, Some(isPublic.GetOr(false)), false, 0, 0)
  }

  /** `createDocument`. */
  function Create(t: Tables, principal: Id, title: string, content: string, isPublic: Option<bool>, now: Time): (r: (Tables, Reply<DocumentRecord>))
    ensures r.1.Ok?
    ensures var d := r.1.value;
      d.id == Some(t.nextId) && d.owner == principal && d.title == title && d.content == content &&
      d.isPublic == Some(isPublic.GetOr(false)) && !d.isDeleted && d.viewCount == 0 && d.likeCount == 0 &&
      d.createdAt == Some(now) && d.updatedAt == Some(now)
    ensures r.0.documents == t.documents + [r.1.value] && r.0.nextId == t.nextId + 1
    ensures r.0 == t.(documents := r.0.documents, nextId := r.0.nextId)
    ensures Valid(t) ==> Valid(r.0)
  {
    InsertDocumentKeepsValid(t, NewDocument(principal, title, content, isPublic), now);
    var saved := InsertDocument(t, NewDocument(principal, title, content, isPublic), now);
    (saved, Ok(saved.documents[|t.documents|]))
  }

  /** On a valid state, the new document is the one its id finds, live. */
  lemma CreatedDocumentIsFound(t: Tables, principal: Id, title: string, content: string, isPublic: Option<bool>, now: Time)
    requires Valid(t)
    ensures var r := Create(t, principal, title, content, isPublic, now);
      FindByIdAndIsDeletedFalse(r.0.documents, t.nextId) == Some(|t.documents|)
  {
    var r := Create(t, principal, title, content, isPublic, now);
    assert r.0.documents[|t.documents|].id == Some(t.nextId);
    forall j | 0 <= j < |t.documents| ensures r.0.documents[j].id != Some(t.nextId) {
      assert r.0.documents[j] == t.documents[j];
    }
  }

  /** `updateDocument`: owner only; the request's flag is copied as given,
      null included. */
  function Update(t: Tables, principal: Id, id: Id, title: string, content: string, isPublic: Option<bool>, now: Time): (r: (Tables, Reply<DocumentRecord>))
    ensures r.1 == NotFound <==> FindByIdAndIsDeletedFalse(t.documents, id).None?
    ensures r.1 == Forbidden <==>
      FindByIdAndIsDeletedFalse(t.documents, id).Some? && t.documents[FindByIdAndIsDeletedFalse(t.documents, id).value].owner != principal
    ensures r.1.Ok? || r.1 == NotFound || r.1 == Forbidden
    ensures !r.1.Ok? ==> r.0 == t
    // owner, deletion flag, counters and creation time are kept
    ensures r.1.Ok? ==>
      var i := FindByIdAndIsDeletedFalse(t.documents, id).value;
      var d := t.documents[i];
      r.1.value == d.(title := title, content := content, isPublic := isPublic, updatedAt := Some(now)) &&
      r.0 == t.(documents := t.documents[i := r.1.value])
    ensures Valid(t) ==> Valid(r.0)
  {
    match FindByIdAndIsDeletedFalse(t.documents, id)
    case None => (t, NotFound)
    case Some(i) =>
      var d := t.documents[i];
      if d.owner != principal then (t, Forbidden)
      else
        var row := d.(title := title, content := content, isPublic := isPublic);
        SaveDocumentKeepsValid(t, i, row, now);
        var saved := SaveDocumentAt(t, i, row, now);
        (saved, Ok(saved.documents[i]))
  }

  /** `deleteDocument`: owner only; the row stays, flagged deleted. */
  function Delete(t: Tables, principal: Id, id: Id, now: Time): (r: (Tables, Reply<()>))
    ensures r.1 == NotFound <==> FindByIdAndIsDeletedFalse(t.documents, id).None?
    ensures r.1 == Forbidden <==>
      FindByIdAndIsDeletedFalse(t.documents, id).Some? && t.documents[FindByIdAndIsDeletedFalse(t.documents, id).value].owner != principal
    ensures r.1.Ok? || r.1 == NotFound || r.1 == Forbidden
    ensures !r.1.Ok? ==> r.0 == t
    ensures r.1.Ok? ==>
      var i := FindByIdAndIsDeletedFalse(t.documents, id).value;
      r.0 == t.(documents := t.documents[i := t.documents[i].(isDeleted := true, updatedAt := Some(now))])
    ensures Valid(t) ==> Valid(r.0)
  {
    match FindByIdAndIsDeletedFalse(t.documents, id)
    case None => (t, NotFound)
    case Some(i) =>
      var d := t.documents[i];
      if d.owner != principal then (t, Forbidden)
      else
        SaveDocumentKeepsValid(t, i, d.(isDeleted := true), now);
        (SaveDocumentAt(t, i, d.(isDeleted := true), now), Ok(()))
  }

  /** On a valid state, deleting twice finds nothing the second time, and
      the deleted document leaves every listing. */
  lemma DeleteTwiceIsNotFound(t: Tables, principal: Id, id: Id, now: Time, later: Time)
    requires Valid(t)
    requires Delete(t, principal, id, now).1.Ok?
    ensures var after := Delete(t, principal, id, now).0;
      Delete(after, principal, id, later) == (after, NotFound) &&
      ReadDocument(after, Some(principal), id, later) == (after, NotFound) &&
      forall d :: d in MyDocuments(after, principal) ==> d.id != Some(id)
  {
    var i := FindByIdAndIsDeletedFalse(t.documents, id).value;
    var after := Delete(t, principal, id, now).0;
    forall j | 0 <= j < |after.documents| ensures after.documents[j].id != Some(id) || after.documents[j].isDeleted {
      if j != i {
        assert after.documents[j] == t.documents[j];
        assert t.documents[j].id != t.documents[i].id;
      }
    }
  }

  /** The document controller over the shared store. */
  class DocumentController {
    const store: Store

    constructor (store: Store)
      ensures this.store == store
    {
      this.store := store;
    }

    /** `getDocument`. */
    method GetDocument(principal: Option<Id>, id: Id, now: Time) returns (reply: Reply<DocumentRecord>)
      modifies store
      ensures (store.Snapshot(), reply) == ReadDocument(old(store.Snapshot()), principal, id, now)
    {
      var found := FindByIdAndIsDeletedFalse(store.documents, id);
      if found.None? {
        return NotFound;
      }
      var i := found.value;
      var document := new Document.Load(store.documents[i]);
      if document.isPublic.None? {
        return Thrown(NullVisibility);
      }
      if document.isPublic.value || principal == Some(document.owner) {
        document.SetViewCount(Int32Inc(document.viewCount));
        store.SaveDocument(i, document, now);
        return Ok(document.Row());
      }
      reply := Forbidden;
    }

    /** `createDocument`. */
    method CreateDocument(principal: Id, title: string, content: string, isPublic: Option<bool>, now: Time)
      returns (reply: Reply<DocumentRecord>)
      modifies store
      ensures (store.Snapshot(), reply) == Create(old(store.Snapshot()), principal, title, content, isPublic, now)
    {
      // Java's no-argument constructor leaves title, content and owner null;
      // the setters below overwrite these placeholders before any read
      var document := new Document("", "", 0);
      document.SetTitle(title);
      document.SetContent(content);
      document.SetUser(principal);
      document.SetIsPublic(Some(if isPublic.Some? then isPublic.value else false));
      store.CreateDocument(document, now);
      reply := Ok(document.Row());
    }

    /** `updateDocument`. */
    method UpdateDocument(principal: Id, id: Id, title: string, content: string, isPublic: Option<bool>, now: Time)
      returns (reply: Reply<DocumentRecord>)
      modifies store
      ensures (store.Snapshot(), reply) == Update(old(store.Snapshot()), principal, id, title, content, isPublic, now)
    {
      var found := FindByIdAndIsDeletedFalse(store.documents, id);
      if found.None? {
        return NotFound;
      }
      var i := found.value;
      var document := new Document.Load(store.documents[i]);
      if document.owner != principal {
        return Forbidden;
      }
      document.SetTitle(title);
      document.SetContent(content);
      document.SetIsPublic(isPublic);
      document.SetUpdatedAt(Some(now));
      store.SaveDocument(i, document, now);
      reply := Ok(document.Row());
    }

    /** `deleteDocument`. */
    method DeleteDocument(principal: Id, id: Id, now: Time) returns (reply: Reply<()>)
      modifies store
      ensures (store.Snapshot(), reply) == Delete(old(store.Snapshot()), principal, id, now)
    {
      var found := FindByIdAndIsDeletedFalse(store.documents, id);
      if found.None? {
        return NotFound;
      }
      var i := found.value;
      var document := new Document.Load(store.documents[i]);
      if document.owner != principal {
        return Forbidden;
      }
      document.SetIsDeleted(true);
      store.SaveDocument(i, document, now);
      reply := Ok(());
    }
  }
}
