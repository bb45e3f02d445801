/** The medical-file API (`MedicalFilesController`): upload, list, fetch
    metadata, download and delete, each on behalf of the authenticated caller.
    The database table and the uploads directory are one immutable value, and
    every handler is a function from that value to a response and the next
    value. */
module MedicalFiles {
  import opened Results
  import opened Seqs
  import opened Text
  import opened Storage

  /** A row of the MedicalFiles table. `uploadedAt` is a timestamp in seconds. */
  datatype MedicalFile = MedicalFile(
    id: int,
    fileType: string,
    fileName: string,
    storedFileName: string,
    originalFileName: string,
    filePath: string,
    uploadedAt: int,
    userId: int)

  /** The multipart upload form: a free-text file type, a display name and
      the file itself, which may be missing. */
  datatype FileUploadDto = FileUploadDto(fileType: string, fileName: string, file: Option<FormFile>)

  /** The metadata returned by `GET /medicalfiles/{id}`: every column except
      the owner. */
  datatype FileDetails = FileDetails(
    id: int,
    fileType: string,
    fileName: string,
    originalFileName: string,
    storedFileName: string,
    filePath: string,
    uploadedAt: int)

  /** A file response: the payload, its declared content type and the name the
      browser is told to save it under. */
  datatype FileDownload = FileDownload(bytes: seq<byte>, contentType: string, downloadName: string)

  /** The body of a successful upload: a confirmation and the new row. */
  datatype Uploaded = Uploaded(message: string, file: MedicalFile)

  /** The table, the disk, and the next identity value the database assigns. */
  datatype FileStore = FileStore(files: seq<MedicalFile>, disk: Disk, nextId: int)

  /** A handler's response together with the store it leaves behind. */
  datatype FileStep<T> = FileStep(response: Response<T>, after: FileStore)

  /** Extensions (after lower-casing) an upload may carry. */
  const UploadExtensions: set<string> := {".pdf", ".jpg", ".jpeg", ".png"}

  /** The content type every download is served with. */
  const DownloadContentType: string := "application/octet-stream"

  /** Identity values are distinct and below the next one to be assigned. */
  predicate ValidFiles(s: FileStore) {
    && (forall i, j :: 0 <= i < j < |s.files| ==> s.files[i].id != s.files[j].id)
    && (forall i :: 0 <= i < |s.files| ==> s.files[i].id < s.nextId)
  }

  /** The `Where(f => f.UserId == userId)` filter. */
  function Owner(user: int): MedicalFile -> bool {
    (f: MedicalFile) => f.userId == user
  }

  /** The `f.Id == id && f.UserId == userId` lookup predicate every per-file
      handler uses. */
  function OwnedWithId(user: int, id: int): MedicalFile -> bool {
    (f: MedicalFile) => f.id == id && f.userId == user
  }

  /** The ordering key of the listing. */
  function UploadTime(f: MedicalFile): int {
    f.uploadedAt
  }

  /** The caller's row with the given id, if there is one. */
  function Lookup(files: seq<MedicalFile>, caller: int, id: int): (m: Option<MedicalFile>)
    ensures m.Some? ==> m.value in files && m.value.id == id && m.value.userId == caller
    ensures m.None? <==> forall f :: f in files ==> !(f.id == id && f.userId == caller)
  {
    First(files, OwnedWithId(caller, id))
  }

  function Details(f: MedicalFile): FileDetails {
    FileDetails(f.id, f.fileType, f.fileName, f.originalFileName, f.storedFileName, f.filePath, f.uploadedAt)
  }

  /** `POST /medicalfiles/upload`. */
  function UploadFile(s: FileStore, caller: int, dto: FileUploadDto, guid: string, now: int): (r: FileStep<Uploaded>)
    ensures r.response.Ok? <==>
              && dto.file.Some? && |dto.file.value.content| > 0
              && Lower(GetExtension(dto.file.value.fileName)) in UploadExtensions
    ensures (dto.file.None? || |dto.file.value.content| == 0) ==>
              r.response == Error(BadRequest("No file uploaded"))
    ensures dto.file.Some? && |dto.file.value.content| > 0
            && Lower(GetExtension(dto.file.value.fileName)) !in UploadExtensions ==>
              r.response == Error(BadRequest("Invalid file type"))
    ensures r.response.Error? ==> r.after == s
    ensures r.response.Ok? ==> r.response.value.message == "File uploaded successfully"
    ensures r.response.Ok? ==>
              var f := r.response.value.file;
              var upload := dto.file.value;
              && r.after.files == s.files + [f]
              && r.after.disk == s.disk[f.filePath := upload.content]
              && r.after.nextId > f.id && f.id >= s.nextId
              && f.userId == caller
              && f.fileType == dto.fileType && f.fileName == dto.fileName
              && f.originalFileName == upload.fileName
              && f.storedFileName == guid + Lower(GetExtension(upload.fileName))
              && f.filePath == Combine(UploadsDir, f.storedFileName)
              && f.uploadedAt == now
  {
    if dto.file.None? || |dto.file.value.content| == 0 then
      FileStep(Error(BadRequest("No file uploaded")), s)
    else
      var upload := dto.file.value;
      var ext := Lower(GetExtension(upload.fileName));
      if ext !in UploadExtensions then
        FileStep(Error(BadRequest("Invalid file type")), s)
      else
        var stored := guid + ext;
        var path := Combine(UploadsDir, stored);
        var f := MedicalFile(s.nextId, dto.fileType, dto.fileName, stored, upload.fileName, path, now, caller);
        FileStep(Ok(Uploaded("File uploaded successfully", f)), FileStore(s.files + [f], s.disk[path := upload.content], s.nextId + 1))
  }

  /** `GET /medicalfiles`: the caller's rows, most recent first. */
  function GetUserFiles(s: FileStore, caller: int): (r: seq<MedicalFile>)
    ensures Descending(r, UploadTime)
    ensures forall f :: multiset(r)[f] == if f.userId == caller then multiset(s.files)[f] else 0
    ensures forall f :: f in r <==> f in s.files && f.userId == caller
  {
    FilterMultiset(s.files, Owner(caller));
    var r := SortDesc(Filter(s.files, Owner(caller)), UploadTime);
    assert forall f :: f in r <==> f in multiset(r);
    r
  }

  /** `GET /medicalfiles/{id}`. */
  function GetFileById(s: FileStore, caller: int, id: int): (r: Response<FileDetails>)
    ensures r.Ok? <==> exists f :: f in s.files && f.id == id && f.userId == caller
    ensures r.Ok? ==> exists f :: f in s.files && f.id == id && f.userId == caller && r.value == Details(f)
    ensures r.Error? ==> r == Error(NotFound("File not found"))
  {
    match Lookup(s.files, caller, id)
    case None => Error(NotFound("File not found"))
    case Some(f) => Ok(Details(f))
  }

  /** `GET /medicalfiles/download/{id}`. */
  function DownloadFile(s: FileStore, caller: int, id: int): (r: Response<FileDownload>)
    ensures r.Ok? ==> exists f :: && f in s.files && f.id == id && f.userId == caller && f.filePath in s.disk
                                  && r.value == FileDownload(s.disk[f.filePath], DownloadContentType, f.originalFileName)
    ensures r == Error(NotFound("File not found")) <==>
              forall f :: f in s.files ==> !(f.id == id && f.userId == caller)
    ensures r.Error? && r != Error(NotFound("File not found")) ==>
              && r == Error(NotFound("File not found on server"))
              && exists f :: f in s.files && f.id == id && f.userId == caller && f.filePath !in s.disk
  {
    match Lookup(s.files, caller, id)
    case None => Error(NotFound("File not found"))
    case Some(f) =>
      if f.filePath !in s.disk then Error(NotFound("File not found on server"))
      else Ok(FileDownload(s.disk[f.filePath], DownloadContentType, f.originalFileName))
  }

  /** `DELETE /medicalfiles/{id}`: removes the payload if it is on disk, then
      the row. */
  function DeleteFile(s: FileStore, caller: int, id: int): (r: FileStep<string>)
    ensures r.response.Ok? <==> exists f :: f in s.files && f.id == id && f.userId == caller
    ensures r.response.Error? ==> r.after == s && r.response == Error(NotFound("File not found"))
    ensures r.response.Ok? ==> r.response.value == "File deleted successfully"
    ensures r.response.Ok? ==>
              exists k :: && 0 <= k < |s.files| && s.files[k].id == id && s.files[k].userId == caller
                          && r.after.files == RemoveAt(s.files, k)
                          && r.after.disk == DeleteIfExists(s.disk, s.files[k].filePath)
    ensures r.after.nextId == s.nextId
  {
    match FindIndex(s.files, OwnedWithId(caller, id))
    case None => FileStep(Error(NotFound("File not found")), s)
    case Some(k) =>
      var f := s.files[k];
      FileStep(Ok("File deleted successfully"),
           FileStore(RemoveAt(s.files, k), DeleteIfExists(s.disk, f.filePath), s.nextId))
  }

  // ---------------------------------------------------------------------
  // Invariant preservation

  lemma UploadPreservesValid(s: FileStore, caller: int, dto: FileUploadDto, guid: string, now: int)
    requires ValidFiles(s)
    ensures ValidFiles(UploadFile(s, caller, dto, guid, now).after)
  {
  }

  /** Removing a row keeps the ids unique and below the counter. */
  lemma RemoveAtKeepsIds(files: seq<MedicalFile>, k: nat, nextId: int)
    requires k < |files|
    requires forall i, j :: 0 <= i < j < |files| ==> files[i].id != files[j].id
    requires forall i :: 0 <= i < |files| ==> files[i].id < nextId
    ensures var t := RemoveAt(files, k);
            && (forall i, j :: 0 <= i < j < |t| ==> t[i].id != t[j].id)
            && (forall i :: 0 <= i < |t| ==> t[i].id < nextId)
  {
  }

  lemma DeletePreservesValid(s: FileStore, caller: int, id: int)
    requires ValidFiles(s)
    ensures ValidFiles(DeleteFile(s, caller, id).after)
  {
    var r := DeleteFile(s, caller, id);
    if r.response.Ok? {
      var k :| && 0 <= k < |s.files| && s.files[k].id == id && s.files[k].userId == caller
               && r.after.files == RemoveAt(s.files, k);
      RemoveAtKeepsIds(s.files, k, s.nextId);
    }
  }

  // ---------------------------------------------------------------------
  // Round trips

  /** The stored name carries the upload's extension, lower-cased, and nothing
      else from the client's name. */
  lemma StoredNameKeepsExtension(s: FileStore, caller: int, dto: FileUploadDto, guid: string, now: int)
    requires IsGuidText(guid)
    requires UploadFile(s, caller, dto, guid, now).response.Ok?
    ensures var f := UploadFile(s, caller, dto, guid, now).response.value.file;
            && GetExtension(f.storedFileName) == Lower(GetExtension(f.originalFileName))
            && GetExtension(f.filePath) == Lower(GetExtension(f.originalFileName))
            && f.storedFileName[..36] == guid
  {
    var f := UploadFile(s, caller, dto, guid, now).response.value.file;
    GuidNameKeepsExtension(guid, Lower(GetExtension(f.originalFileName)));
  }

  /** A GUID followed by an allowed extension, alone or under uploads/, has
      that extension. */
  lemma GuidNameKeepsExtension(guid: string, ext: string)
    requires IsGuidText(guid) && ext in UploadExtensions
    ensures GetExtension(guid + ext) == ext
    ensures GetExtension(Combine(UploadsDir, guid + ext)) == ext
    ensures (guid + ext)[..36] == guid
  {
    assert IsSuffix(ext, guid + ext);
    GetExtensionOfSuffix(guid + ext, ext);
    assert Combine(UploadsDir, guid + ext) == UploadsDir + "/" + (guid + ext);
    assert IsSuffix(ext, Combine(UploadsDir, guid + ext));
    GetExtensionOfSuffix(Combine(UploadsDir, guid + ext), ext);
    assert (guid + ext)[..36] == guid;
  }

  /** An upload is immediately readable by its owner: listed, described, and
      downloadable with the same bytes under the original name. */
  lemma UploadThenRead(s: FileStore, caller: int, dto: FileUploadDto, guid: string, now: int)
    requires ValidFiles(s)
    requires UploadFile(s, caller, dto, guid, now).response.Ok?
    ensures var r := UploadFile(s, caller, dto, guid, now);
            var f := r.response.value.file;
            && f in GetUserFiles(r.after, caller)
            && GetFileById(r.after, caller, f.id) == Ok(Details(f))
            && DownloadFile(r.after, caller, f.id)
               == Ok(FileDownload(dto.file.value.content, DownloadContentType, dto.file.value.fileName))
  {
    var r := UploadFile(s, caller, dto, guid, now);
    var f := r.response.value.file;
    FreshIdIsUnique(s.files, s.nextId, f);
    assert f in r.after.files;
    var m := Lookup(r.after.files, caller, f.id);
    assert m == Some(f);
  }

  /** A row whose id is at least every existing id bound is the only row
      with that id once appended. */
  lemma FreshIdIsUnique(files: seq<MedicalFile>, nextId: int, f: MedicalFile)
    requires forall i :: 0 <= i < |files| ==> files[i].id < nextId
    requires f.id >= nextId
    ensures forall g :: g in files + [f] && g.id == f.id ==> g == f
  {
  }

  /** With a clock that has moved past every earlier upload, a new upload heads
      its owner's listing. */
  lemma NewUploadListedFirst(s: FileStore, caller: int, dto: FileUploadDto, guid: string, now: int)
    requires forall g :: g in s.files ==> g.uploadedAt < now
    requires UploadFile(s, caller, dto, guid, now).response.Ok?
    ensures var r := UploadFile(s, caller, dto, guid, now);
            var l := GetUserFiles(r.after, caller);
            |l| > 0 && l[0] == r.response.value.file
  {
    var r := UploadFile(s, caller, dto, guid, now);
    var f := r.response.value.file;
    var l := GetUserFiles(r.after, caller);
    assert r.after.files == s.files + [f];
    assert f in l;
    var j :| 0 <= j < |l| && l[j] == f;
    assert UploadTime(l[0]) >= UploadTime(l[j]);
    assert l[0] in s.files + [f];
  }

  /** After a successful delete the id is gone: not listed, not described,
      not downloadable. */
  lemma DeletedFileIsGone(s: FileStore, caller: int, id: int)
    requires ValidFiles(s)
    requires DeleteFile(s, caller, id).response.Ok?
    ensures var t := DeleteFile(s, caller, id).after;
            && (forall f :: f in t.files ==> f.id != id)
            && (forall f :: f in GetUserFiles(t, caller) ==> f.id != id)
            && GetFileById(t, caller, id) == Error(NotFound("File not found"))
            && DownloadFile(t, caller, id) == Error(NotFound("File not found"))
  {
    var t := DeleteFile(s, caller, id).after;
    var k :| && 0 <= k < |s.files| && s.files[k].id == id && s.files[k].userId == caller
             && t.files == RemoveAt(s.files, k);
    RemovedIdIsGone(s.files, k);
  }

  /** With unique ids, removing the row at `k` removes its id. */
  lemma RemovedIdIsGone(files: seq<MedicalFile>, k: nat)
    requires k < |files|
    requires forall i, j :: 0 <= i < j < |files| ==> files[i].id != files[j].id
    ensures forall f :: f in RemoveAt(files, k) ==> f.id != files[k].id
  {
    var t := RemoveAt(files, k);
    forall f | f in t ensures f.id != files[k].id {
      var i :| 0 <= i < |t| && t[i] == f;
      if i < k {
        assert t[i] == files[i];
      } else {
        assert t[i] == files[i + 1];
      }
    }
  }

  // ---------------------------------------------------------------------
  // Ownership isolation

  /** The caller's rows, in table order. */
  function OwnedBy(files: seq<MedicalFile>, caller: int): seq<MedicalFile> {
    Filter(files, Owner(caller))
  }

  /** Two stores look the same to `caller`: the same rows of theirs, in the
      same order, with the same payloads on disk. */
  predicate SameView(s1: FileStore, s2: FileStore, caller: int) {
    && OwnedBy(s1.files, caller) == OwnedBy(s2.files, caller)
    && forall f :: f in OwnedBy(s1.files, caller) ==>
         (f.filePath in s1.disk <==> f.filePath in s2.disk)
         && (f.filePath in s1.disk ==> s1.disk[f.filePath] == s2.disk[f.filePath])
  }

  /** Every per-id lookup finds the same row whether or not other users' rows
      are present. */
  lemma LookupSeesOnlyOwnRows(files: seq<MedicalFile>, caller: int, id: int)
    ensures Lookup(files, caller, id) == Lookup(OwnedBy(files, caller), caller, id)
  {
    FirstThroughFilter(files, OwnedWithId(caller, id), Owner(caller));
  }

  /** Non-interference: every answer the file API gives a caller depends only
      on that caller's own rows and payloads. */
  lemma CallerSeesOnlyOwnFiles(s1: FileStore, s2: FileStore, caller: int, id: int)
    requires SameView(s1, s2, caller)
    ensures GetUserFiles(s1, caller) == GetUserFiles(s2, caller)
    ensures GetFileById(s1, caller, id) == GetFileById(s2, caller, id)
    ensures DownloadFile(s1, caller, id) == DownloadFile(s2, caller, id)
    ensures DeleteFile(s1, caller, id).response == DeleteFile(s2, caller, id).response
  {
    LookupSeesOnlyOwnRows(s1.files, caller, id);
    LookupSeesOnlyOwnRows(s2.files, caller, id);
    var m := Lookup(s1.files, caller, id);
    if m.Some? {
      assert m.value in OwnedBy(s1.files, caller) by {
        assert m.value in multiset(OwnedBy(s1.files, caller));
      }
    }
    assert DeleteFile(s1, caller, id).response.Ok? <==> m.Some?;
    assert DeleteFile(s2, caller, id).response.Ok? <==> m.Some?;
  }

  /** A row owned by someone else behaves exactly like a missing row: adding
      it changes no answer the caller can receive. */
  lemma ForeignRowIsInvisible(s: FileStore, caller: int, other: MedicalFile, id: int)
    requires other.userId != caller
    ensures var t := s.(files := s.files + [other]);
            && GetUserFiles(t, caller) == GetUserFiles(s, caller)
            && GetFileById(t, caller, id) == GetFileById(s, caller, id)
            && DownloadFile(t, caller, id) == DownloadFile(s, caller, id)
            && DeleteFile(t, caller, id).response == DeleteFile(s, caller, id).response
  {
    var t := s.(files := s.files + [other]);
    FilterAppendDropped(s.files, other, Owner(caller));
    assert OwnedBy(t.files, caller) == OwnedBy(s.files, caller);
    CallerSeesOnlyOwnFiles(t, s, caller, id);
  }

  /** A delete by one user leaves every other user's listing as it was. */
  lemma DeleteLeavesOthersListing(s: FileStore, caller: int, other: int, id: int)
    requires other != caller
    ensures GetUserFiles(DeleteFile(s, caller, id).after, other) == GetUserFiles(s, other)
  {
    var r := DeleteFile(s, caller, id);
    if r.response.Ok? {
      var k :| && 0 <= k < |s.files| && s.files[k].id == id && s.files[k].userId == caller
               && r.after.files == RemoveAt(s.files, k);
      FilterRemoveAt(s.files, k, Owner(other));
    }
  }

  /** An upload by one user leaves every other user's listing as it was. */
  lemma UploadLeavesOthersListing(s: FileStore, caller: int, other: int, dto: FileUploadDto, guid: string, now: int)
    requires other != caller
    ensures GetUserFiles(UploadFile(s, caller, dto, guid, now).after, other) == GetUserFiles(s, other)
  {
    var r := UploadFile(s, caller, dto, guid, now);
    if r.response.Ok? {
      var f := r.response.value.file;
      assert r.after.files == s.files + [f];
      FilterAppendDropped(s.files, f, Owner(other));
    }
  }
}
