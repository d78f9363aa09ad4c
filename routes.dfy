/** The HTTP handlers over the store: upload, delete, download and list.
    Each handler is a method that returns the status code and body it sends
    and changes the store as the source does, in the source's order. */
module Routes {
  import opened Wrappers
  import opened Strings
  import opened Schema
  import opened NodePath
  import opened Storage

  /** multer's `fileSize` limit: 100 MiB. */
  const MaxUploadBytes: nat := 100 * 1024 * 1024

  const NoFileMessage := "No file uploaded"
  const InvalidTypeMessage := "Invalid file type. Only .exe, .bat, and .zip files are allowed."
  const UploadFailedMessage := "Failed to upload file"
  const InvalidIdMessage := "Invalid file ID"
  const NotFoundMessage := "File not found"
  const DataNotFoundMessage := "File data not found"
  const DownloadFailedMessage := "Failed to download file"

  /** The file multer hands over; its `size` is the buffer's length. */
  datatype UploadedFile = UploadedFile(originalname: string, buffer: Bytes)

  datatype Body =
    | NoBody
    | Message(message: string)
    | FileJson(file: FileRecord)
    | FilesJson(files: seq<FileRecord>)
    | Attachment(contentType: string, contentDisposition: string, contentLength: nat, data: Bytes)

  datatype Response = Response(status: int, body: Body)

  /** `path.extname(name).toLowerCase().substring(1)`: the lower-cased
      extension without its dot. Lowering keeps the leading '.', so dropping
      it first gives the same text. */
  function ExtensionTag(originalName: string): (tag: string)
    ensures '.' !in tag && '/' !in tag
    ensures ExtName(originalName) == "" ==> tag == ""
    ensures ExtName(originalName) != "" ==> Lower(ExtName(originalName)) == "." + tag
  {
    var x := ExtName(originalName);
    if x == "" then ""
    else
      LowerExtension(x);
      Lower(x[1..])
  }

  /** Lowering an extension keeps its leading '.' and lets in no '.' or '/'. */
  lemma LowerExtension(x: string)
    requires x != "" && x[0] == '.' && '.' !in x[1..] && '/' !in x
    ensures Lower(x) == "." + Lower(x[1..])
    ensures '.' !in Lower(x[1..]) && '/' !in Lower(x[1..])
  {
    var rest := x[1..];
    assert x == "." + rest;
    LowerDotPrefix(rest);
    LowerKeepsOut(rest, '.');
    LowerKeepsOut(rest, '/');
  }

  /** The if-chain that picks the file type from the extension. */
  function ClassifyFileType(originalName: string): (fileType: string)
    ensures fileType == "exe" || fileType == "bat" || fileType == "zip" || fileType == "other"
  {
    var ext := ExtensionTag(originalName);
    if ext == "exe" then "exe"
    else if ext == "bat" then "bat"
    else if ext == "zip" then "zip"
    else "other"
  }

  /** The type is the lower-cased extension when that is exe, bat or zip, and
      "other" for every other name; `FileTypeEnum` accepts all four, so the
      parsed type is always there. */
  lemma ClassificationRule(originalName: string)
    ensures var ext := ExtensionTag(originalName);
      ClassifyFileType(originalName) == if ext in {"exe", "bat", "zip"} then ext else "other"
    ensures ParseFileType(ClassifyFileType(originalName)).Some?
  {
  }

  /** For a name `stem.ext` without '/' and a non-empty stem, the tag is the
      lower-cased `ext`. */
  lemma ExtensionTagOfStemAndExt(stem: string, ext: string)
    requires stem != "" && '/' !in stem && '/' !in ext && '.' !in ext
    requires stem + "." + ext != ".."
    ensures ExtensionTag(stem + "." + ext) == Lower(ext)
  {
    ExtNameOfStemAndExt(stem, ext);
    LowerDotPrefix(ext);
    assert ("." + Lower(ext))[1..] == Lower(ext);
  }

  /** `req.body.description || `${originalname} file``. */
  function DescriptionOrDefault(description: Option<string>, originalname: string): (d: string)
    ensures d != ""
    ensures description.Some? && description.value != "" ==> d == description.value
    ensures description.None? || description.value == "" ==> d == originalname + " file"
  {
    if description.Some? && description.value != "" then description.value else originalname + " file"
  }

  /** The metadata the upload handler validates and stores for a blob saved
      under `storedFilename`. */
  function UploadMetadata(file: UploadedFile, description: Option<string>, storedFilename: string): (meta: InsertFile)
    ensures meta.name == storedFilename && meta.originalName == file.originalname
    ensures meta.size == |file.buffer|
    ensures FileTypeName(meta.fileType) == ClassifyFileType(file.originalname)
    ensures description.Some? && description.value != "" ==> meta.description == description.value
    ensures description.None? || description.value == "" ==> meta.description == file.originalname + " file"
  {
    InsertFile(storedFilename, file.originalname, DescriptionOrDefault(description, file.originalname),
               ParseFileType(ClassifyFileType(file.originalname)).value, |file.buffer|)
  }

  /** The key `saveFileData` stores an upload under. */
  function StoredKey(uuid: string, file: UploadedFile): string
  {
    uuid + ExtName(file.originalname)
  }

  /** POST /files. `validationError` is `insertFileSchema.parse`: `None` when
      the metadata is accepted, else the error's message. The uuid is the
      fresh key `randomUUID` returns and `writeOk` whether the blob write
      succeeds. Checks run in order: no file (400), file type (400, never
      taken), blob write (500), metadata validation (400, after deleting the
      saved blob again), then the record is created (201). */
  method UploadFile(s: MemStorage, file: Option<UploadedFile>, description: Option<string>,
                    uuid: string, writeOk: bool, validationError: InsertFile -> Option<string>, now: int)
    returns (resp: Response)
    requires s.Valid()
    requires file.Some? ==> |file.value.buffer| <= MaxUploadBytes
    requires file.Some? ==> IsUuid(uuid) && StoredKey(uuid, file.value) !in s.uploads
    modifies s
    ensures s.Valid()
    ensures file.None? ==> resp == Response(400, Message(NoFileMessage)) && unchanged(s)
    ensures file.Some? && !writeOk ==> resp == Response(500, Message(UploadFailedMessage)) && unchanged(s)
    ensures file.Some? && writeOk
            && validationError(UploadMetadata(file.value, description, StoredKey(uuid, file.value))).Some? ==>
      var meta := UploadMetadata(file.value, description, StoredKey(uuid, file.value));
      && resp == Response(400, Message(validationError(meta).value))
      && s.uploads == old(s.uploads) && s.filesList == old(s.filesList)
      && s.fileCurrentId == old(s.fileCurrentId)
      && s.backupManifest == old(s.backupManifest) && s.backupBlobs == old(s.backupBlobs)
    ensures file.Some? && writeOk
            && validationError(UploadMetadata(file.value, description, StoredKey(uuid, file.value))).None? ==>
      var meta := UploadMetadata(file.value, description, StoredKey(uuid, file.value));
      && resp.status == 201 && resp.body.FileJson?
      && resp.body.file == FileRecord(old(s.fileCurrentId), meta.name, meta.originalName, meta.description,
                                      meta.fileType, meta.size, 0, now)
      && s.filesList == old(s.filesList).Set(old(s.fileCurrentId), resp.body.file)
      && s.fileCurrentId == old(s.fileCurrentId) + 1
      && s.uploads == old(s.uploads)[meta.name := file.value.buffer]
      && s.BackedUpOver(old(s.backupBlobs))
  {
    if file.None? {
      return Response(400, Message(NoFileMessage));
    }
    resp := UploadReceived(s, file.value, description, uuid, writeOk, validationError, now);
  }

  /** The upload handler once multer has received a file. */
  method UploadReceived(s: MemStorage, upload: UploadedFile, description: Option<string>,
                        uuid: string, writeOk: bool, validationError: InsertFile -> Option<string>, now: int)
    returns (resp: Response)
    requires s.Valid()
    requires IsUuid(uuid) && StoredKey(uuid, upload) !in s.uploads
    modifies s
    ensures s.Valid()
    ensures !writeOk ==> resp == Response(500, Message(UploadFailedMessage)) && unchanged(s)
    ensures writeOk && validationError(UploadMetadata(upload, description, StoredKey(uuid, upload))).Some? ==>
      var meta := UploadMetadata(upload, description, StoredKey(uuid, upload));
      && resp == Response(400, Message(validationError(meta).value))
      && s.uploads == old(s.uploads) && s.filesList == old(s.filesList)
      && s.fileCurrentId == old(s.fileCurrentId)
      && s.backupManifest == old(s.backupManifest) && s.backupBlobs == old(s.backupBlobs)
    ensures writeOk && validationError(UploadMetadata(upload, description, StoredKey(uuid, upload))).None? ==>
      var meta := UploadMetadata(upload, description, StoredKey(uuid, upload));
      && resp.status == 201 && resp.body.FileJson?
      && resp.body.file == FileRecord(old(s.fileCurrentId), meta.name, meta.originalName, meta.description,
                                      meta.fileType, meta.size, 0, now)
      && s.filesList == old(s.filesList).Set(old(s.fileCurrentId), resp.body.file)
      && s.fileCurrentId == old(s.fileCurrentId) + 1
      && s.uploads == old(s.uploads)[meta.name := upload.buffer]
      && s.BackedUpOver(old(s.backupBlobs))
  {
    var fileType := ClassifyFileType(upload.originalname);
    var parsed := ParseFileType(fileType);
    if parsed.None? {
      return Response(400, Message(InvalidTypeMessage));
    }
    var saved := s.SaveFileData(upload.originalname, upload.buffer, uuid, writeOk);
    if saved.Err? {
      return Response(500, Message(UploadFailedMessage));
    }
    WriteThenDeleteFreshKey(old(s.uploads), saved.value, upload.buffer);
    resp := CreateOrCleanUp(s, upload, description, saved.value, validationError, now);
  }

  /** The rest of the upload once the blob is saved under `storedFilename`:
      validate the metadata; when it is rejected, delete the blob again and
      answer 400 with the validation message, else create the record and
      answer 201 with it. */
  method CreateOrCleanUp(s: MemStorage, upload: UploadedFile, description: Option<string>,
                         storedFilename: string, validationError: InsertFile -> Option<string>, now: int)
    returns (resp: Response)
    requires s.Valid()
    modifies s
    ensures s.Valid()
    ensures validationError(UploadMetadata(upload, description, storedFilename)).Some? ==>
      && resp == Response(400, Message(validationError(UploadMetadata(upload, description, storedFilename)).value))
      && s.uploads == old(s.uploads) - {storedFilename}
      && s.filesList == old(s.filesList) && s.fileCurrentId == old(s.fileCurrentId)
      && s.backupManifest == old(s.backupManifest) && s.backupBlobs == old(s.backupBlobs)
    ensures validationError(UploadMetadata(upload, description, storedFilename)).None? ==>
      var meta := UploadMetadata(upload, description, storedFilename);
      && resp.status == 201 && resp.body.FileJson?
      && resp.body.file == FileRecord(old(s.fileCurrentId), meta.name, meta.originalName, meta.description,
                                      meta.fileType, meta.size, 0, now)
      && s.filesList == old(s.filesList).Set(old(s.fileCurrentId), resp.body.file)
      && s.fileCurrentId == old(s.fileCurrentId) + 1
      && s.uploads == old(s.uploads)
      && s.BackedUpOver(old(s.backupBlobs))
  {
    var fileData := UploadMetadata(upload, description, storedFilename);
    var error := validationError(fileData);
    if error.Some? {
      var _ := s.DeleteFileData(storedFilename);
      return Response(400, Message(error.value));
    }
    var newFile := s.CreateFile(fileData, now);
    return Response(201, FileJson(newFile));
  }

  /** DELETE /files/:id; `id` is `parseInt` of the path parameter, `None`
      for NaN. */
  method DeleteFileRoute(s: MemStorage, id: Option<int>) returns (resp: Response)
    requires s.Valid()
    modifies s
    ensures s.Valid()
    ensures id.None? ==> resp == Response(400, Message(InvalidIdMessage)) && unchanged(s)
    ensures id.Some? && id.value !in old(s.filesList.entries) ==>
      resp == Response(404, Message(NotFoundMessage)) && unchanged(s)
    ensures id.Some? && id.value in old(s.filesList.entries) ==>
      && resp == Response(204, NoBody)
      && s.filesList == old(s.filesList).Delete(id.value)
      && s.uploads == old(s.uploads) - {old(s.filesList.entries[id.value]).name}
      && s.fileCurrentId == old(s.fileCurrentId)
      && s.BackedUpOver(old(s.backupBlobs))
  {
    if id.None? {
      return Response(400, Message(InvalidIdMessage));
    }
    var success := s.DeleteFile(id.value);
    if success {
      resp := Response(204, NoBody);
    } else {
      resp := Response(404, Message(NotFoundMessage));
    }
  }

  /** Node's `setHeader` throws for a value holding a character other than
      tab, ' ' to '~', and U+0080 to U+00FF. */
  predicate HeaderSafe(value: string)
  {
    forall i :: 0 <= i < |value| ==> HeaderChar(value[i])
  }

  predicate HeaderChar(c: char)
  {
    c == '\t' || ' ' <= c <= '~' || '\U{80}' <= c <= '\U{FF}'
  }

  /** The prefix of the `Content-Disposition` value, up to the opening quote. */
  const DispositionPrefix := "attachment; filename=\""

  /** The `Content-Disposition` value the download sends: the original name
      can be read back between the quotes, and Node accepts the value exactly
      when it accepts the name. */
  function AttachmentDisposition(originalName: string): (value: string)
    ensures |value| == |DispositionPrefix| + |originalName| + 1
    ensures value[|DispositionPrefix|..|value| - 1] == originalName
    ensures HeaderSafe(value) <==> HeaderSafe(originalName)
  {
    var value := DispositionPrefix + originalName + "\"";
    assert forall i :: 0 <= i < |originalName| ==> value[|DispositionPrefix| + i] == originalName[i];
    assert forall i :: 0 <= i < |DispositionPrefix| ==> HeaderChar(value[i]);
    assert HeaderChar(value[|value| - 1]);
    value
  }

  /** GET /files/:id/download. The checks run in order: a bad id (400), no
      record (404), no blob (404). Then the download is counted, and only
      after that are the headers set: when Node refuses the
      `Content-Disposition` value the handler's catch answers 500, with the
      count already raised. Otherwise the blob is sent as an attachment named
      after the original file. */
  method DownloadFileRoute(s: MemStorage, id: Option<int>) returns (resp: Response)
    requires s.Valid()
    modifies s
    ensures s.Valid()
    ensures id.None? ==> resp == Response(400, Message(InvalidIdMessage)) && unchanged(s)
    ensures id.Some? && id.value !in old(s.filesList.entries) ==>
      resp == Response(404, Message(NotFoundMessage)) && unchanged(s)
    ensures id.Some? && id.value in old(s.filesList.entries)
            && old(s.filesList.entries[id.value]).name !in old(s.uploads) ==>
      resp == Response(404, Message(DataNotFoundMessage)) && unchanged(s)
    ensures id.Some? && id.value in old(s.filesList.entries)
            && old(s.filesList.entries[id.value]).name in old(s.uploads) ==>
      var f := old(s.filesList.entries[id.value]);
      var counted := f.(downloads := f.downloads + 1);
      var data := old(s.uploads[f.name]);
      && s.filesList == old(s.filesList).Set(id.value, counted)
      && s.fileCurrentId == old(s.fileCurrentId) && s.uploads == old(s.uploads)
      && (counted.downloads % 5 == 0 ==> s.BackedUpOver(old(s.backupBlobs)))
      && (counted.downloads % 5 != 0 ==>
            s.backupManifest == old(s.backupManifest) && s.backupBlobs == old(s.backupBlobs))
      && (HeaderSafe(f.originalName) ==>
            resp == Response(200, Attachment("application/octet-stream", AttachmentDisposition(f.originalName), |data|, data)))
      && (!HeaderSafe(f.originalName) ==> resp == Response(500, Message(DownloadFailedMessage)))
  {
    if id.None? {
      return Response(400, Message(InvalidIdMessage));
    }
    var file := s.GetFile(id.value);
    if file.None? {
      return Response(404, Message(NotFoundMessage));
    }
    var fileData := s.GetFileData(file.value.name);
    if fileData.None? {
      return Response(404, Message(DataNotFoundMessage));
    }
    var _ := s.IncrementDownloadCount(id.value);
    var disposition := AttachmentDisposition(file.value.originalName);
    if !HeaderSafe(disposition) {
      return Response(500, Message(DownloadFailedMessage));
    }
    var data := fileData.value;
    return Response(200, Attachment("application/octet-stream", disposition, |data|, data));
  }

  /** GET /files: every stored record once, newest first. */
  function ListFilesRoute(s: MemStorage): (resp: Response)
    reads s
    requires s.Valid()
    ensures resp.status == 200 && resp.body.FilesJson?
    ensures NewestFirst(resp.body.files)
    ensures multiset(resp.body.files) == multiset(s.filesList.Values())
  {
    Response(200, FilesJson(s.GetAllFiles()))
  }
}
