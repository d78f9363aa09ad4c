/** The upload handler's type check as written and as evidently intended.
    As written, the check parses the classified type with `FileTypeEnum`,
    which lists "other", so the 400 branch is never taken and a file of any
    extension is stored with type "other". The strict handler rejects those
    files before saving anything, which is what its error message promises. */
module StrictUpload {
  import opened Wrappers
  import opened Strings
  import opened Schema
  import opened NodePath
  import opened Storage
  import opened Routes

  /** Every stored record has one of the three allowed types. */
  predicate OnlyAllowedTypes(s: MemStorage)
    reads s
  {
    forall k :: k in s.filesList.entries ==> s.filesList.entries[k].fileType != Other
  }

  /** A tag other than exe, bat and zip classifies as "other". */
  lemma TagNotAllowedIsOther(name: string)
    requires ExtensionTag(name) != "exe" && ExtensionTag(name) != "bat" && ExtensionTag(name) != "zip"
    ensures ClassifyFileType(name) == "other"
  {
  }

  /** "virus.scr" has the tag "scr". */
  lemma VirusScrTag(name: string, stem: string, ext: string)
    requires stem == "virus" && ext == "scr" && name == stem + "." + ext
    ensures ExtensionTag(name) == "scr"
  {
    VirusScrIsOrdinary(stem, ext);
    ExtensionTagOfStemAndExt(stem, ext);
  }

  lemma VirusScrIsOrdinary(stem: string, ext: string)
    requires stem == "virus" && ext == "scr"
    ensures stem != "" && '/' !in stem && '/' !in ext && '.' !in ext && stem + "." + ext != ".."
    ensures Lower(ext) == ext
  {
  }

  /** The input that shows the dead check: "virus.scr" is classified
      "other", which `FileTypeEnum` accepts. */
  lemma VirusScrPassesTypeCheck(name: string)
    requires name == "virus" + "." + "scr"
    ensures ClassifyFileType(name) == "other"
    ensures ParseFileType(ClassifyFileType(name)) == Some(Other)
  {
    VirusScrTag(name, "virus", "scr");
    TagNotAllowedIsOther(name);
  }

  /** The as-written handler stores a file whatever its extension: when the
      blob write succeeds and the metadata is accepted, a file whose tag is
      not exe, bat or zip (such as "virus.scr") is answered with 201 and
      stored with type "other". */
  method DisallowedExtensionIsStored(s: MemStorage, upload: UploadedFile, uuid: string, now: int)
    returns (resp: Response)
    requires s.Valid()
    requires |upload.buffer| <= MaxUploadBytes
    requires IsUuid(uuid) && StoredKey(uuid, upload) !in s.uploads
    requires ExtensionTag(upload.originalname) != "exe" && ExtensionTag(upload.originalname) != "bat"
    requires ExtensionTag(upload.originalname) != "zip"
    modifies s
    ensures s.Valid()
    ensures resp.status == 201 && resp.body.FileJson?
    ensures resp.body.file.originalName == upload.originalname && resp.body.file.fileType == Other
    ensures s.filesList == old(s.filesList).Set(old(s.fileCurrentId), resp.body.file)
    ensures s.uploads == old(s.uploads)[StoredKey(uuid, upload) := upload.buffer]
  {
    TagNotAllowedIsOther(upload.originalname);
    resp := UploadFile(s, Some(upload), None, uuid, true, (m: InsertFile) => None, now);
  }

  /** POST /files with the type check the error message describes: a file
      whose extension is not exe, bat or zip is refused with 400 before its
      blob is saved. Every other path is the as-written handler's. */
  method UploadFileStrict(s: MemStorage, file: Option<UploadedFile>, description: Option<string>,
                          uuid: string, writeOk: bool, validationError: InsertFile -> Option<string>, now: int)
    returns (resp: Response)
    requires s.Valid()
    requires file.Some? ==> |file.value.buffer| <= MaxUploadBytes
    requires file.Some? ==> IsUuid(uuid) && StoredKey(uuid, file.value) !in s.uploads
    modifies s
    ensures s.Valid()
    ensures old(OnlyAllowedTypes(s)) ==> OnlyAllowedTypes(s)
    ensures file.None? ==> resp == Response(400, Message(NoFileMessage)) && unchanged(s)
    ensures file.Some? && ClassifyFileType(file.value.originalname) == "other" ==>
      resp == Response(400, Message(InvalidTypeMessage)) && unchanged(s)
    ensures resp.status == 201 ==>
      && file.Some? && ClassifyFileType(file.value.originalname) != "other"
      && resp.body.FileJson? && resp.body.file.fileType != Other
      && s.filesList == old(s.filesList).Set(old(s.fileCurrentId), resp.body.file)
      && s.uploads == old(s.uploads)[StoredKey(uuid, file.value) := file.value.buffer]
    ensures file.Some? && ClassifyFileType(file.value.originalname) != "other" && writeOk
            && validationError(UploadMetadata(file.value, description, StoredKey(uuid, file.value))).None? ==>
      resp.status == 201
  {
    if file.None? {
      return Response(400, Message(NoFileMessage));
    }
    if ClassifyFileType(file.value.originalname) == "other" {
      return Response(400, Message(InvalidTypeMessage));
    }
    resp := UploadFile(s, file, description, uuid, writeOk, validationError, now);
  }
}
