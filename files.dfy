/** The file endpoints: uploading a blob with its record, downloading it
    with the right headers, listing, and deleting blob and record. The blob
    store is the set of paths that hold a blob; a failing I/O call is a
    `true` flag given by the caller. */
module Files {
  import opened Common
  import opened Records
  import DocumentRepository
  import UserRepository
  import FileRepository
  import opened Access
  import opened Persistence

  const DownloadPrefix := "/api/files/download/"
  const OctetStream := "application/octet-stream"
  const DispositionPrefix := "attachment; filename=\""

  /** `s.lastIndexOf(c)`: the last position of `c`, if any. */
  function LastIndexOf(s: string, c: char): (r: Option<nat>)
    ensures r.Some? ==> r.value < |s| && s[r.value] == c && forall j :: r.value < j < |s| ==> s[j] != c
    ensures r.None? <==> c !in s
  {
    if s == [] then None
    else if s[|s| - 1] == c then Some(|s| - 1)
    else
      var init := s[..|s| - 1];
      assert s == init + [s[|s| - 1]];
      LastIndexOf(init, c)
  }

  /** The extension kept on the stored name: from the last dot of the
      client's file name to its end, or nothing. */
  function Extension(originalName: Option<string>): (ext: string)
    ensures originalName.None? ==> ext == ""
    ensures originalName.Some? && '.' !in originalName.value ==> ext == ""
    ensures originalName.Some? && '.' in originalName.value ==>
      var n := originalName.value;
      |ext| >= 1 && |ext| <= |n| && ext[0] == '.' && '.' !in ext[1..] && n[|n| - |ext|..] == ext
  {
    match originalName
    case None => ""
    case Some(n) =>
      match LastIndexOf(n, '.')
      case None => ""
      case Some(i) =>
        var tail := n[i + 1..];
        assert forall k :: 0 <= k < |tail| ==> tail[k] == n[i + 1 + k];
        n[i..]
  }

  /** The generated blob name: the random identifier and the extension. */
  function StoredName(uuid: string, originalName: Option<string>): (name: string)
    ensures IsPrefix(uuid, name) && name[|uuid|..] == Extension(originalName)
  {
    uuid + Extension(originalName)
  }

  /** The public URL of a stored file; the name is recoverable from it. */
  function FileUrl(fileName: string): (url: string)
    ensures IsPrefix(DownloadPrefix, url) && url[|DownloadPrefix|..] == fileName
  {
    DownloadPrefix + fileName
  }

  /** `Paths.get(uploadDir).resolve(fileName)`, as text. */
  function BlobPath(uploadDir: string, fileName: string): (path: string)
    ensures IsPrefix(uploadDir, path) && path[|uploadDir|..] == "/" + fileName
  {
    uploadDir + "/" + fileName
  }

  /** The multipart file of an upload request. */
  datatype Part = Part(originalName: Option<string>, contentType: Option<string>, size: int)

  /** The uploader is known, and the document named (if any) exists and is
      accessible to them. */
  predicate MayAttach(t: Tables, username: string, documentId: Option<Id>) {
    match UserRepository.FindByUsername(t.users, username)
    case None => false
    case Some(u) =>
      match documentId
      case None => true
      case Some(d) =>
        match DocumentRepository.FindById(t.documents, d)
        case None => false
        case Some(i) => FileAccess(t.collaborators, d, t.documents[i].owner, u.id)
  }

  /** `uploadFile`. The blob is written before the user and the document
      are checked, so those exceptions leave it behind. */
  function Upload(t: Tables, username: string, part: Part, documentId: Option<Id>, uploadDir: string,
                  uuid: string, copyFails: bool, deleteFails: bool, now: Time): (r: (Tables, Reply<FileRecord>))
    // an empty upload is refused before anything is stored
    ensures part.size == 0 ==> r == (t, BadRequest(EmptyUpload))
    ensures part.size != 0 && copyFails ==> r == (t, ServerError(StorageError))
    // records change only on success; a failure may leave the blob
    ensures !r.1.Ok? ==> r.0 == t.(blobs := r.0.blobs)
    ensures r.1.Thrown? ==> r.0.blobs == t.blobs + {BlobPath(uploadDir, StoredName(uuid, part.originalName))}
    // refused access to the document: the stored blob is deleted again
    ensures r.1 == BadRequest(AccessDenied) <==>
      part.size != 0 && !copyFails && !deleteFails && UserRepository.FindByUsername(t.users, username).Some? &&
      documentId.Some? && DocumentRepository.FindById(t.documents, documentId.value).Some? &&
      !FileAccess(t.collaborators, documentId.value,
                  t.documents[DocumentRepository.FindById(t.documents, documentId.value).value].owner,
                  UserRepository.FindByUsername(t.users, username).value.id)
    ensures r.1 == BadRequest(AccessDenied) ==> r.0.blobs == t.blobs - {BlobPath(uploadDir, StoredName(uuid, part.originalName))}
    // once the blob is stored: an unknown user, then an unknown document, throw
    ensures part.size != 0 && !copyFails && UserRepository.FindByUsername(t.users, username).None? ==>
      r.1 == Thrown(UserNotFound)
    ensures (part.size != 0 && !copyFails && UserRepository.FindByUsername(t.users, username).Some? &&
             documentId.Some? && DocumentRepository.FindById(t.documents, documentId.value).None?) ==>
      r.1 == Thrown(DocumentNotFound)
    // a refusal whose blob delete fails is a 500, and the blob stays
    ensures r.1 == ServerError(StorageError) <==>
      part.size != 0 && (copyFails || (deleteFails && UserRepository.FindByUsername(t.users, username).Some? &&
      documentId.Some? && DocumentRepository.FindById(t.documents, documentId.value).Some? &&
      !FileAccess(t.collaborators, documentId.value,
                  t.documents[DocumentRepository.FindById(t.documents, documentId.value).value].owner,
                  UserRepository.FindByUsername(t.users, username).value.id)))
    ensures r.1.ServerError? && !copyFails ==>
      r.0.blobs == t.blobs + {BlobPath(uploadDir, StoredName(uuid, part.originalName))}
    // the upload succeeds exactly for a non-empty, stored part of a known user
    // with no document or an accessible one
    ensures r.1.Ok? <==> part.size != 0 && !copyFails && MayAttach(t, username, documentId)
    // a success stores one blob and one record pointing at it
    ensures r.1.Ok? ==> UserRepository.FindByUsername(t.users, username).Some?
    ensures r.1.Ok? ==>
      var name := StoredName(uuid, part.originalName);
      var u := UserRepository.FindByUsername(t.users, username).value;
      r.1.value == FileRecord(t.nextId, name, part.originalName, part.contentType, part.size,
                              BlobPath(uploadDir, name), FileUrl(name), u.id, documentId, now) &&
      r.0 == t.(files := t.files + [r.1.value], blobs := t.blobs + {BlobPath(uploadDir, name)}, nextId := t.nextId + 1)
    ensures r.1.Ok? && documentId.Some? ==>
      DocumentRepository.FindById(t.documents, documentId.value).Some? &&
      FileAccess(t.collaborators, documentId.value, t.documents[DocumentRepository.FindById(t.documents, documentId.value).value].owner,
                 UserRepository.FindByUsername(t.users, username).value.id)
    ensures Valid(t) ==> Valid(r.0)
  {
    if part.size == 0 then (t, BadRequest(EmptyUpload))
    else
      var name := StoredName(uuid, part.originalName);
      var path := BlobPath(uploadDir, name);
      if copyFails then (t, ServerError(StorageError))
      else
        var t1 := t.(blobs := t.blobs + {path});
        match UserRepository.FindByUsername(t1.users, username)
        case None => (t1, Thrown(UserNotFound))
        case Some(u) =>
          var attached :=
            match documentId
            case None => Ok(None)
            case Some(d) =>
              match DocumentRepository.FindById(t1.documents, d)
              case None => Thrown(DocumentNotFound)
              case Some(i) =>
                if FileAccess(t1.collaborators, d, t1.documents[i].owner, u.id) then Ok(Some(d))
                else if deleteFails then ServerError(StorageError)
                else BadRequest(AccessDenied);
          match attached
          case Ok(document) =>
            InsertFileKeepsValid(t1, name, part.originalName, part.contentType, part.size, path, FileUrl(name), u.id, document, now);
            var saved := InsertFile(t1, name, part.originalName, part.contentType, part.size, path, FileUrl(name), u.id, document, now);
            (saved, Ok(saved.files[|t.files|]))
          case BadRequest(e) => (t1.(blobs := t1.blobs - {path}), BadRequest(e))
          case ServerError(e) => (t1, ServerError(e))
          case _ => (t1, Thrown(DocumentNotFound))
  }

  /** Who may delete a file: its uploader, or the owner of the document it
      is attached to; `None` when that document's row is gone. */
  function MayDelete(t: Tables, f: FileRecord, user: Id): (r: Option<bool>)
    ensures r == Some(true) <==>
      f.owner == user ||
      (f.document.Some? && DocumentRepository.FindById(t.documents, f.document.value).Some? &&
       t.documents[DocumentRepository.FindById(t.documents, f.document.value).value].owner == user)
    ensures r.None? ==> f.owner != user
  {
    if f.owner == user then Some(true)
    else
      match f.document
      case None => Some(false)
      case Some(d) =>
        match DocumentRepository.FindById(t.documents, d)
        case None => None
        case Some(j) => Some(t.documents[j].owner == user)
  }

  /** `deleteFile`: blob first, then record. */
  function Delete(t: Tables, username: string, fileId: Id, deleteFails: bool): (r: (Tables, Reply<()>))
    ensures FileRepository.FindById(t.files, fileId).None? ==> r == (t, Thrown(FileNotFound))
    // nothing is removed unless the whole deletion succeeds
    ensures !r.1.Ok? ==> r.0 == t
    ensures r.1.Ok? <==>
      FileRepository.FindById(t.files, fileId).Some? && UserRepository.FindByUsername(t.users, username).Some? &&
      (var f := t.files[FileRepository.FindById(t.files, fileId).value];
       MayDelete(t, f, UserRepository.FindByUsername(t.users, username).value.id) == Some(true) &&
       !(f.filePath in t.blobs && deleteFails))
    // each refusal once the checks before it pass: unknown user, dangling
    // document, neither uploader nor document owner, then a failed blob delete
    ensures r.1 == Thrown(UserNotFound) <==>
      FileRepository.FindById(t.files, fileId).Some? && UserRepository.FindByUsername(t.users, username).None?
    ensures r.1 == Thrown(DanglingReference) <==>
      FileRepository.FindById(t.files, fileId).Some? && UserRepository.FindByUsername(t.users, username).Some? &&
      MayDelete(t, t.files[FileRepository.FindById(t.files, fileId).value],
                UserRepository.FindByUsername(t.users, username).value.id).None?
    ensures r.1 == BadRequest(AccessDenied) <==>
      FileRepository.FindById(t.files, fileId).Some? && UserRepository.FindByUsername(t.users, username).Some? &&
      MayDelete(t, t.files[FileRepository.FindById(t.files, fileId).value],
                UserRepository.FindByUsername(t.users, username).value.id) == Some(false)
    // a blob that cannot be deleted keeps the record in place
    ensures r.1 == ServerError(StorageError) <==>
      FileRepository.FindById(t.files, fileId).Some? && UserRepository.FindByUsername(t.users, username).Some? &&
      (var f := t.files[FileRepository.FindById(t.files, fileId).value];
       MayDelete(t, f, UserRepository.FindByUsername(t.users, username).value.id) == Some(true) &&
       f.filePath in t.blobs && deleteFails)
    ensures r.1.Ok? ==>
      var k := FileRepository.FindById(t.files, fileId).value;
      r.0 == t.(files := t.files[..k] + t.files[k + 1..], blobs := t.blobs - {t.files[k].filePath})
    ensures Valid(t) ==> Valid(r.0)
  {
    match FileRepository.FindById(t.files, fileId)
    case None => (t, Thrown(FileNotFound))
    case Some(k) =>
      var f := t.files[k];
      match UserRepository.FindByUsername(t.users, username)
      case None => (t, Thrown(UserNotFound))
      case Some(u) =>
        match MayDelete(t, f, u.id)
        case None => (t, Thrown(DanglingReference))
        case Some(allowed) =>
          if !allowed then (t, BadRequest(AccessDenied))
          else if f.filePath in t.blobs && deleteFails then (t, ServerError(StorageError))
          else
            var t1 := if f.filePath in t.blobs then t.(blobs := t.blobs - {f.filePath}) else t;
            (RemoveFileAt(t1, k), Ok(()))
  }

  /** The headers of a download. */
  datatype Headers = Headers(contentType: string, disposition: string)

  /** The first record with this stored name (a scan of all records). */
  function RecordNamed(files: seq<FileRecord>, fileName: string): (r: Option<FileRecord>)
    ensures r.Some? ==> r.value in files && r.value.fileName == fileName
    ensures r.Some? ==>
      exists i :: 0 <= i < |files| && files[i] == r.value && forall j :: 0 <= j < i ==> files[j].fileName != fileName
    ensures r.None? <==> !FileRepository.ExistsByFileName(files, fileName)
  {
    match Seqs.FirstIndex(files, FileRepository.Named(fileName))
    case None => None
    case Some(i) => Some(files[i])
  }

  /** `downloadFile`: 404 without a blob; otherwise the record's type, else
      the generic binary type, and the record's client name, else the
      requested name. A record whose client name is null puts "null" in the
      header, as string concatenation does. */
  function Download(t: Tables, uploadDir: string, fileName: string): (r: Reply<Headers>)
    ensures r.Ok? || r == NotFound
    ensures r == NotFound <==> BlobPath(uploadDir, fileName) !in t.blobs
    ensures r.Ok? ==> IsPrefix(DispositionPrefix, r.value.disposition)
    ensures r.Ok? && RecordNamed(t.files, fileName).None? ==>
      r.value == Headers(OctetStream, DispositionPrefix + fileName + "\"")
    ensures r.Ok? && RecordNamed(t.files, fileName).Some? ==>
      var f := RecordNamed(t.files, fileName).value;
      r.value.contentType == f.fileType.GetOr(OctetStream) &&
      r.value.disposition == DispositionPrefix + f.originalName.GetOr("null") + "\""
  {
    if BlobPath(uploadDir, fileName) !in t.blobs then NotFound
    else
      var record := RecordNamed(t.files, fileName);
      var contentType := if record.Some? && record.value.fileType.Some? then record.value.fileType.value else OctetStream;
      var shown := if record.Some? then (if record.value.originalName.Some? then record.value.originalName.value else "null") else fileName;
      Ok(Headers(contentType, DispositionPrefix + shown + "\""))
  }

  /** `getMyFiles`. */
  function MyFiles(t: Tables, username: string): (r: Reply<seq<FileRecord>>)
    ensures r.Ok? || r == Thrown(UserNotFound)
    ensures r.Ok? <==> UserRepository.FindByUsername(t.users, username).Some?
    ensures r.Ok? ==> forall f :: f in r.value <==> f in t.files && f.owner == UserRepository.FindByUsername(t.users, username).value.id
    ensures r.Ok? ==> r.value == FileRepository.FindByUserOrderByCreatedAtDesc(t.files, UserRepository.FindByUsername(t.users, username).value.id)
  {
    match UserRepository.FindByUsername(t.users, username)
    case None => Thrown(UserNotFound)
    case Some(u) => Ok(FileRepository.FindByUserOrderByCreatedAtDesc(t.files, u.id))
  }

  /** `getDocumentFiles`: gated by the file controller's access rule. */
  function DocumentFiles(t: Tables, username: string, documentId: Id): (r: Reply<seq<FileRecord>>)
    ensures DocumentRepository.FindById(t.documents, documentId).None? ==> r == Thrown(DocumentNotFound)
    ensures r.Ok? ==>
      UserRepository.FindByUsername(t.users, username).Some? &&
      FileAccess(t.collaborators, documentId, t.documents[DocumentRepository.FindById(t.documents, documentId).value].owner,
                 UserRepository.FindByUsername(t.users, username).value.id)
    ensures r.Ok? ==> forall f :: f in r.value <==> f in t.files && f.document == Some(documentId)
    ensures r.Ok? ==> r.value == FileRepository.FindByDocumentOrderByCreatedAtDesc(t.files, documentId)
    // a found document: an unknown user throws, otherwise access decides
    ensures (DocumentRepository.FindById(t.documents, documentId).Some? &&
             UserRepository.FindByUsername(t.users, username).None?) ==> r == Thrown(UserNotFound)
    ensures (DocumentRepository.FindById(t.documents, documentId).Some? &&
             UserRepository.FindByUsername(t.users, username).Some?) ==>
      var access := FileAccess(t.collaborators, documentId,
                               t.documents[DocumentRepository.FindById(t.documents, documentId).value].owner,
                               UserRepository.FindByUsername(t.users, username).value.id);
      (access ==> r.Ok?) && (!access ==> r == BadRequest(AccessDenied))
  {
    match DocumentRepository.FindById(t.documents, documentId)
    case None => Thrown(DocumentNotFound)
    case Some(i) =>
      match UserRepository.FindByUsername(t.users, username)
      case None => Thrown(UserNotFound)
      case Some(u) =>
        if FileAccess(t.collaborators, documentId, t.documents[i].owner, u.id) then
          Ok(FileRepository.FindByDocumentOrderByCreatedAtDesc(t.files, documentId))
        else BadRequest(AccessDenied)
  }

  /** The file controller over the shared store, with its upload directory. */
  class FileController {
    const store: Store
    const uploadDir: string

    constructor (store: Store, uploadDir: string)
      ensures this.store == store && this.uploadDir == uploadDir
    {
      this.store := store;
      this.uploadDir := uploadDir;
    }

    /** `uploadFile`. */
    method UploadFile(username: string, part: Part, documentId: Option<Id>, uuid: string,
                      copyFails: bool, deleteFails: bool, now: Time) returns (reply: Reply<FileRecord>)
      modifies store
      ensures (store.Snapshot(), reply) ==
        Upload(old(store.Snapshot()), username, part, documentId, uploadDir, uuid, copyFails, deleteFails, now)
    {
      if part.size == 0 {
        return BadRequest(EmptyUpload);
      }
      var fileName := StoredName(uuid, part.originalName);
      var filePath := BlobPath(uploadDir, fileName);
      if copyFails {
        return ServerError(StorageError);
      }
      store.WriteBlob(filePath);
      var user := UserRepository.FindByUsername(store.users, username);
      if user.None? {
        return Thrown(UserNotFound);
      }
      var u := user.value;
      if documentId.Some? {
        var found := DocumentRepository.FindById(store.documents, documentId.value);
        if found.None? {
          return Thrown(DocumentNotFound);
        }
        if !FileAccess(store.collaborators, documentId.value, store.documents[found.value].owner, u.id) {
          if deleteFails {
            return ServerError(StorageError);
          }
          store.RemoveBlob(filePath);
          return BadRequest(AccessDenied);
        }
      }
      store.AddFile(fileName, part.originalName, part.contentType, part.size, filePath, FileUrl(fileName), u.id, documentId, now);
      reply := Ok(store.files[|store.files| - 1]);
    }

    /** `deleteFile`. */
    method DeleteFile(username: string, fileId: Id, deleteFails: bool) returns (reply: Reply<()>)
      modifies store
      ensures (store.Snapshot(), reply) == Delete(old(store.Snapshot()), username, fileId, deleteFails)
    {
      var found := FileRepository.FindById(store.files, fileId);
      if found.None? {
        return Thrown(FileNotFound);
      }
      var k := found.value;
      var file := store.files[k];
      var user := UserRepository.FindByUsername(store.users, username);
      if user.None? {
        return Thrown(UserNotFound);
      }
      var allowed := MayDelete(store.Snapshot(), file, user.value.id);
      if allowed.None? {
        return Thrown(DanglingReference);
      }
      if !allowed.value {
        return BadRequest(AccessDenied);
      }
      if file.filePath in store.blobs {
        if deleteFails {
          return ServerError(StorageError);
        }
        store.RemoveBlob(file.filePath);
      }
      store.DeleteFile(k);
      reply := Ok(());
    }
  }
}
