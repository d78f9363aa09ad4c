/** The download handler's order of steps as written and as evidently
    intended. As written, the download is counted before the headers are
    set, so a `Content-Disposition` value that Node refuses (an original
    name holding a character such as '文' or DEL) makes the handler answer
    500 after the count has already gone up. The checked handler builds the
    header first, so a download is counted exactly when it is sent. */
module CheckedDownload {
  import opened Wrappers
  import opened Storage
  import opened Routes

  /** The input that shows it: a name holding any character Node's header
      check refuses, such as "文件.exe", gives a refused
      `Content-Disposition` value. */
  lemma RefusedCharacterRefusesHeader(stem: string, c: char, ext: string)
    requires !HeaderChar(c)
    ensures !HeaderSafe(AttachmentDisposition(stem + [c] + ext))
  {
    var name := stem + [c] + ext;
    assert name[|stem|] == c;
  }

  /** As written: downloading a stored file whose original name Node refuses
      in a header answers 500 and still raises its count by one. */
  method RefusedNameIsCounted(s: MemStorage, id: int) returns (resp: Response)
    requires s.Valid()
    requires id in s.filesList.entries && s.filesList.entries[id].name in s.uploads
    requires !HeaderSafe(s.filesList.entries[id].originalName)
    modifies s
    ensures resp == Response(500, Message(DownloadFailedMessage))
    ensures id in s.filesList.entries
    ensures s.filesList.entries[id].downloads == old(s.filesList.entries[id].downloads) + 1
  {
    resp := DownloadFileRoute(s, Some(id));
  }

  /** GET /files/:id/download with the header built before the download is
      counted: every answer other than 200 leaves the store as it was, and a
      record's count goes up by one exactly when its blob is sent. */
  method DownloadFileRouteChecked(s: MemStorage, id: Option<int>) returns (resp: Response)
    requires s.Valid()
    modifies s
    ensures s.Valid()
    ensures resp.status != 200 ==> unchanged(s)
    ensures id.None? ==> resp == Response(400, Message(InvalidIdMessage))
    ensures id.Some? && id.value !in old(s.filesList.entries) ==>
      resp == Response(404, Message(NotFoundMessage))
    ensures id.Some? && id.value in old(s.filesList.entries)
            && old(s.filesList.entries[id.value]).name !in old(s.uploads) ==>
      resp == Response(404, Message(DataNotFoundMessage))
    ensures id.Some? && id.value in old(s.filesList.entries)
            && old(s.filesList.entries[id.value]).name in old(s.uploads)
            && !HeaderSafe(old(s.filesList.entries[id.value]).originalName) ==>
      resp == Response(500, Message(DownloadFailedMessage))
    ensures resp.status == 200 <==>
      && id.Some? && id.value in old(s.filesList.entries)
      && old(s.filesList.entries[id.value]).name in old(s.uploads)
      && HeaderSafe(old(s.filesList.entries[id.value]).originalName)
    ensures id.Some? && id.value in old(s.filesList.entries) ==>
      && id.value in s.filesList.entries
      && s.filesList.entries[id.value].downloads
         == old(s.filesList.entries[id.value].downloads) + (if resp.status == 200 then 1 else 0)
    ensures resp.status == 200 ==>
      var f := old(s.filesList.entries[id.value]);
      var counted := f.(downloads := f.downloads + 1);
      var data := old(s.uploads[f.name]);
      && resp == Response(200, Attachment("application/octet-stream", AttachmentDisposition(f.originalName), |data|, data))
      && s.filesList == old(s.filesList).Set(id.value, counted)
      && s.fileCurrentId == old(s.fileCurrentId) && s.uploads == old(s.uploads)
      && (counted.downloads % 5 == 0 ==> s.BackedUpOver(old(s.backupBlobs)))
      && (counted.downloads % 5 != 0 ==>
            s.backupManifest == old(s.backupManifest) && s.backupBlobs == old(s.backupBlobs))
  {
    if id.None? {
      return Response(400, Message(InvalidIdMessage));
    }
    var file := s.GetFile(id.value);
    if file.None? {
      return Response(404, Message(NotFoundMessage));
    }
    var fileData := s.GetFileData(file.value.name);
    if fileData.None? {
      return Response(404, Message(DataNotFoundMessage));
    }
    var disposition := AttachmentDisposition(file.value.originalName);
    if !HeaderSafe(disposition) {
      return Response(500, Message(DownloadFailedMessage));
    }
    var _ := s.IncrementDownloadCount(id.value);
    var data := fileData.value;
    return Response(200, Attachment("application/octet-stream", disposition, |data|, data));
  }
}
