/** What the storage promises across operations and across a restart. */
module StorageProperties {
  import opened Wrappers
  import opened Schema
  import opened Storage
  import opened NodePath

  /** A blob that was readable when the snapshot was taken is readable with
      the same bytes after the snapshot is restored, whatever either directory
      held before. */
  lemma BlobSurvivesBackupAndRestore(
    manifest: seq<FileRecord>, uploads: Directory, oldBackup: Directory, newUploads: Directory, f: FileRecord)
    requires f in manifest && f.name in uploads
    ensures var backup := CopyBlobs(oldBackup, manifest, uploads);
      && f.name in CopyBlobs(newUploads, manifest, backup)
      && CopyBlobs(newUploads, manifest, backup)[f.name] == uploads[f.name]
  {
    var backup := CopyBlobs(oldBackup, manifest, uploads);
    CopyBlobsIsUnion(oldBackup, manifest, uploads);
    CopyBlobsIsUnion(newUploads, manifest, backup);
    assert f.name in Names(manifest);
  }

  /** A redeploy: a new process starts over the backup directory of `s`
      with an empty uploads directory. It gets back the same index and every
      blob `s` could read, and a counter that is not above the old one. */
  method Redeploy(s: MemStorage, ghost before: Directory) returns (t: MemStorage)
    requires s.Valid() && s.BackedUpOver(before)
    ensures t.Valid()
    ensures t.filesList == s.filesList
    ensures t.fileCurrentId <= s.fileCurrentId
    ensures forall k :: k in s.filesList.entries && s.filesList.entries[k].name in s.uploads ==>
      t.GetFileData(s.filesList.entries[k].name) == s.GetFileData(s.filesList.entries[k].name)
  {
    var manifest := s.filesList.Values();
    t := new MemStorage(map[], s.backupManifest, s.backupBlobs);
    ReplaySnapshotRestoresIndex(s.filesList, s.fileCurrentId);
    RestartCounter(s.filesList, s.fileCurrentId);
    forall k | k in s.filesList.entries && s.filesList.entries[k].name in s.uploads
      ensures t.GetFileData(s.filesList.entries[k].name) == s.GetFileData(s.filesList.entries[k].name)
    {
      var i :| 0 <= i < |s.filesList.keys| && s.filesList.keys[i] == k;
      assert manifest[i] == s.filesList.entries[k];
      BlobSurvivesBackupAndRestore(manifest, s.uploads, before, map[], manifest[i]);
    }
  }

  /** Ids are not reused within a process: insert three files, delete the
      second, and the next insert gets 4, not 2. */
  method IdsAreNotReused() returns (ids: seq<int>)
    ensures ids == [1, 2, 3, 4]
  {
    var s := new MemStorage(map[], None, map[]);
    var a := s.CreateFile(InsertFile("k1.exe", "a.exe", "a", Exe, 1), 10);
    var b := s.CreateFile(InsertFile("k2.bat", "b.bat", "b", Bat, 2), 11);
    var c := s.CreateFile(InsertFile("k3.zip", "c.zip", "c", Zip, 3), 12);
    var deleted := s.DeleteFile(b.id);
    var d := s.CreateFile(InsertFile("k4.exe", "d.exe", "d", Exe, 4), 13);
    ids := [a.id, b.id, c.id, d.id];
  }

  /** A blob round trip: the key `saveFileData` returns keeps the original
      name's extension and reads back the saved bytes; after one delete the
      blob is gone and a second delete reports false. */
  method BlobRoundTrip(s: MemStorage, originalFilename: string, data: Bytes, uuid: string)
    returns (key: string, first: Option<Bytes>, deleted: bool, second: Option<Bytes>, deletedAgain: bool)
    requires IsUuid(uuid) && uuid + ExtName(originalFilename) !in s.uploads
    modifies s
    ensures ExtName(key) == ExtName(originalFilename)
    ensures first == Some(data) && deleted
    ensures second.None? && !deletedAgain
    ensures s.uploads == old(s.uploads)
  {
    var saved := s.SaveFileData(originalFilename, data, uuid, true);
    key := saved.value;
    first := s.GetFileData(key);
    deleted := s.DeleteFileData(key);
    second := s.GetFileData(key);
    deletedAgain := s.DeleteFileData(key);
    WriteThenDeleteFreshKey(old(s.uploads), key, data);
  }

  /** `n` downloads of a stored record raise its count by exactly `n` and
      change no other record. */
  method RepeatedDownloads(s: MemStorage, id: int, n: nat)
    requires s.Valid() && id in s.filesList.entries
    modifies s
    ensures s.Valid()
    ensures id in s.filesList.entries
    ensures s.filesList.entries[id] == old(s.filesList.entries[id]).(downloads := old(s.filesList.entries[id].downloads) + n)
    ensures s.filesList.keys == old(s.filesList.keys)
    ensures forall k :: k in old(s.filesList.entries) && k != id ==> s.filesList.entries[k] == old(s.filesList.entries[k])
    ensures s.fileCurrentId == old(s.fileCurrentId) && s.uploads == old(s.uploads)
  {
    for i := 0 to n
      invariant s.Valid() && id in s.filesList.entries
      invariant s.filesList.entries[id] == old(s.filesList.entries[id]).(downloads := old(s.filesList.entries[id].downloads) + i)
      invariant s.filesList.keys == old(s.filesList.keys)
      invariant s.filesList.entries.Keys == old(s.filesList.entries.Keys)
      invariant forall k :: k in old(s.filesList.entries) && k != id ==> s.filesList.entries[k] == old(s.filesList.entries[k])
      invariant s.fileCurrentId == old(s.fileCurrentId) && s.uploads == old(s.uploads)
    {
      var _ := s.IncrementDownloadCount(id);
    }
  }
}
