/** `MemStorage`: the server's file store. It keeps the metadata index (a JS
    `Map` from id to record plus the next-id counter) in memory, the blobs in
    the `uploads` directory, and a full snapshot in `file_backups` (a manifest
    of all records and a copy of each blob) that it replays on start-up. */
module Storage {
  import opened Wrappers
  import opened Schema
  import opened JsMap
  import opened NodePath

  type Index = OrderedMap<FileRecord>

  /** A directory: file name to contents. */
  type Directory = map<string, Bytes>

  /** The index invariant: each record sits under its own id, and the counter
      is positive and above every id in use, so the next id is fresh. */
  ghost predicate IndexValid(index: Index, nextId: int)
  {
    && index.Valid()
    && 1 <= nextId
    && forall k :: k in index.entries ==> index.entries[k].id == k && k < nextId
  }

  /** Writing a blob under a fresh key and deleting it again leaves the
      directory as it was. */
  lemma WriteThenDeleteFreshKey(dir: Directory, key: string, data: Bytes)
    requires key !in dir
    ensures dir[key := data] - {key} == dir
  {
    var after := dir[key := data] - {key};
    assert after.Keys == dir.Keys;
  }

  // ---------------------------------------------------------------------
  // Snapshot copying, shared by backup (uploads -> backup directory) and
  // restore (backup directory -> uploads).
  // ---------------------------------------------------------------------

  /** The storage keys the records of `manifest` name. */
  ghost function Names(manifest: seq<FileRecord>): set<string>
  {
    set f | f in manifest :: f.name
  }

  /** For each record in turn, copy its blob from `src` into `dst` when `src`
      has it; a missing blob is skipped. */
  function CopyBlobs(dst: Directory, manifest: seq<FileRecord>, src: Directory): Directory
    decreases |manifest|
  {
    if manifest == [] then dst
    else
      var f := manifest[|manifest| - 1];
      var d := CopyBlobs(dst, manifest[..|manifest| - 1], src);
      if f.name in src then d[f.name := src[f.name]] else d
  }

  /** The blobs of `src` whose names are in `names`. */
  ghost function Restrict(src: Directory, names: set<string>): Directory
  {
    map n | n in src && n in names :: src[n]
  }

  /** Adding one more name to the restriction is one more write, when `src`
      has that name. */
  lemma RestrictOneMore(dst: Directory, src: Directory, names: set<string>, n: string)
    ensures n in src ==> (dst + Restrict(src, names))[n := src[n]] == dst + Restrict(src, names + {n})
    ensures n !in src ==> dst + Restrict(src, names) == dst + Restrict(src, names + {n})
  {
    var after := dst + Restrict(src, names + {n});
    if n in src {
      var step := (dst + Restrict(src, names))[n := src[n]];
      assert step.Keys == after.Keys;
      assert forall k :: k in step ==> step[k] == after[k];
    } else {
      assert Restrict(src, names) == Restrict(src, names + {n});
    }
  }

  /** Copying is a right-biased union: `dst` overwritten by every blob of
      `src` that a manifest record names, and nothing else. */
  lemma {:induction false} CopyBlobsIsUnion(dst: Directory, manifest: seq<FileRecord>, src: Directory)
    ensures CopyBlobs(dst, manifest, src) == dst + Restrict(src, Names(manifest))
    decreases |manifest|
  {
    if manifest != [] {
      var init := manifest[..|manifest| - 1];
      var f := manifest[|manifest| - 1];
      CopyBlobsIsUnion(dst, init, src);
      assert manifest == init + [f];
      assert Names(manifest) == Names(init) + {f.name};
      RestrictOneMore(dst, src, Names(init), f.name);
    }
  }

  /** The number of records of `manifest` whose blob `src` holds. */
  function CountCopyable(manifest: seq<FileRecord>, src: Directory): (n: nat)
    ensures n <= |manifest|
    decreases |manifest|
  {
    if manifest == [] then 0
    else
      var f := manifest[|manifest| - 1];
      CountCopyable(manifest[..|manifest| - 1], src) + if f.name in src then 1 else 0
  }

  // ---------------------------------------------------------------------
  // Replaying a manifest into the index.
  // ---------------------------------------------------------------------

  /** `filesList.set(file.id, file)` for each record in turn. */
  function ReplayIndex(index: Index, manifest: seq<FileRecord>): (r: Index)
    requires index.Valid()
    ensures r.Valid()
    decreases |manifest|
  {
    if manifest == [] then index
    else
      var f := manifest[|manifest| - 1];
      ReplayIndex(index, manifest[..|manifest| - 1]).Set(f.id, f)
  }

  /** The counter after each record raises it to `id + 1` when `id` has
      reached it. */
  function RaiseCounter(nextId: int, manifest: seq<FileRecord>): int
    decreases |manifest|
  {
    if manifest == [] then nextId
    else
      var f := manifest[|manifest| - 1];
      var c := RaiseCounter(nextId, manifest[..|manifest| - 1]);
      if f.id >= c then f.id + 1 else c
  }

  /** The raised counter is above every replayed id and never below where it
      started. */
  lemma {:induction false} RaiseCounterBound(nextId: int, manifest: seq<FileRecord>)
    ensures RaiseCounter(nextId, manifest) >= nextId
    ensures forall f :: f in manifest ==> f.id < RaiseCounter(nextId, manifest)
    decreases |manifest|
  {
    if manifest != [] {
      var init := manifest[..|manifest| - 1];
      RaiseCounterBound(nextId, init);
      assert manifest == init + [manifest[|manifest| - 1]];
    }
  }

  /** Replaying a manifest keeps the index invariant: every replayed record
      sits under its own id and the raised counter stays above all ids. */
  lemma {:induction false} ReplayKeepsIndexValid(index: Index, nextId: int, manifest: seq<FileRecord>)
    requires IndexValid(index, nextId)
    ensures IndexValid(ReplayIndex(index, manifest), RaiseCounter(nextId, manifest))
    decreases |manifest|
  {
    if manifest != [] {
      var init := manifest[..|manifest| - 1];
      ReplayKeepsIndexValid(index, nextId, init);
      RaiseCounterBound(nextId, manifest);
      assert manifest == init + [manifest[|manifest| - 1]];
    }
  }

  /** The index holds exactly the records of `keys`, in that order. */
  ghost predicate HoldsExactly(index: Index, keys: seq<int>, all: Index)
    requires all.Valid()
    requires forall k :: k in keys ==> k in all.entries
  {
    && index.keys == keys
    && index.entries == map k | k in keys :: all.entries[k]
  }

  /** One more record of a snapshot replayed: the index grows by that record
      at the end of the order. */
  lemma SnapshotReplayStep(index: Index, nextId: int, i: nat)
    requires IndexValid(index, nextId) && i < |index.keys|
    requires HoldsExactly(ReplayIndex(Empty(), index.Values()[..i]), index.keys[..i], index)
    ensures HoldsExactly(ReplayIndex(Empty(), index.Values()[..i + 1]), index.keys[..i + 1], index)
  {
    var vs := index.Values();
    var prev := ReplayIndex(Empty(), vs[..i]);
    var k := index.keys[i];
    assert vs[..i + 1][..i] == vs[..i] && vs[..i + 1][i] == vs[i];
    assert k in index.entries && vs[i] == index.entries[k] && vs[i].id == k;
    assert ReplayIndex(Empty(), vs[..i + 1]) == prev.Set(k, vs[i]);
    assert k !in index.keys[..i];
    assert k !in prev.entries;
    assert index.keys[..i + 1] == index.keys[..i] + [k];
    var next := prev.Set(k, vs[i]);
    assert next.entries == map j | j in index.keys[..i + 1] :: index.entries[j];
  }

  /** Restoring a snapshot of an index into an empty one reproduces the index:
      the same ids, the same records, in the same order. */
  lemma {:induction false} ReplaySnapshotRestoresIndex(index: Index, nextId: int)
    requires IndexValid(index, nextId)
    ensures ReplayIndex(Empty(), index.Values()) == index
  {
    var vs := index.Values();
    for i := 0 to |vs|
      invariant HoldsExactly(ReplayIndex(Empty(), vs[..i]), index.keys[..i], index)
    {
      SnapshotReplayStep(index, nextId, i);
    }
    assert vs[..|vs|] == vs;
    assert index.keys[..|vs|] == index.keys;
    HoldsAllIsSame(ReplayIndex(Empty(), vs), index);
  }

  /** An index that holds exactly all keys of a valid index, in its order,
      is that index. */
  lemma HoldsAllIsSame(r: Index, index: Index)
    requires index.Valid()
    requires HoldsExactly(r, index.keys, index)
    ensures r == index
  {
    assert forall j :: j in r.entries <==> j in index.keys;
    assert forall j :: j in index.keys <==> j in index.entries;
    assert r.entries.Keys == index.entries.Keys;
  }

  /** After a restart the counter is one past the largest surviving id (or 1
      for an empty snapshot): ids of records deleted after the newest
      surviving one are handed out again. */
  lemma {:induction false} RestartCounter(index: Index, nextId: int)
    requires IndexValid(index, nextId)
    ensures var c := RaiseCounter(1, index.Values());
      && 1 <= c <= nextId
      && (forall k :: k in index.entries ==> k < c)
      && (c == 1 || c - 1 in index.entries)
  {
    var vs := index.Values();
    RaiseCounterBound(1, vs);
    RaiseCounterReached(1, vs);
    forall k | k in index.entries ensures k < RaiseCounter(1, vs) {
      var i :| 0 <= i < |index.keys| && index.keys[i] == k;
      assert vs[i] in vs;
    }
    var c := RaiseCounter(1, vs);
    if c != 1 {
      var f :| f in vs && f.id == c - 1;
      var i :| 0 <= i < |vs| && vs[i] == f;
      assert index.keys[i] in index.entries;
    }
  }

  /** The raised counter is its start or one past some replayed id. */
  lemma {:induction false} RaiseCounterReached(nextId: int, manifest: seq<FileRecord>)
    ensures var c := RaiseCounter(nextId, manifest);
      c == nextId || exists f :: f in manifest && f.id == c - 1
    decreases |manifest|
  {
    if manifest != [] {
      var init := manifest[..|manifest| - 1];
      RaiseCounterReached(nextId, init);
      assert manifest == init + [manifest[|manifest| - 1]];
      var c := RaiseCounter(nextId, init);
      if c != nextId {
        var f :| f in init && f.id == c - 1;
        assert f in manifest;
      }
    }
  }

  // ---------------------------------------------------------------------
  // Read-only queries.
  // ---------------------------------------------------------------------

  /** The lookup predicate of `getFileByName`. */
  predicate NamedBy(f: FileRecord, name: string)
  {
    f.name == name || f.originalName == name
  }

  /** `Array.prototype.find` with `NamedBy`: the position of the first match. */
  function FindByName(files: seq<FileRecord>, name: string): (r: Option<nat>)
    ensures r.None? <==> forall i :: 0 <= i < |files| ==> !NamedBy(files[i], name)
    ensures r.Some? ==> r.value < |files| && NamedBy(files[r.value], name)
    ensures r.Some? ==> forall i :: 0 <= i < r.value ==> !NamedBy(files[i], name)
  {
    if files == [] then None
    else if NamedBy(files[0], name) then Some(0)
    else
      match FindByName(files[1..], name)
      case None => None
      case Some(i) => Some(i + 1)
  }

  /** Newest upload first. */
  predicate NewestFirst(files: seq<FileRecord>)
  {
    forall i, j :: 0 <= i < j < |files| ==> files[i].uploadDate >= files[j].uploadDate
  }

  /** Put `f` before the first record that is not newer than it. */
  function InsertByDate(f: FileRecord, sorted: seq<FileRecord>): (r: seq<FileRecord>)
    ensures multiset(r) == multiset(sorted) + multiset{f}
    ensures |r| == |sorted| + 1 && (r[0] == f || (sorted != [] && r[0] == sorted[0]))
  {
    if sorted == [] || sorted[0].uploadDate <= f.uploadDate then [f] + sorted
    else
      assert sorted == [sorted[0]] + sorted[1..];
      [sorted[0]] + InsertByDate(f, sorted[1..])
  }

  /** Inserting into a newest-first list keeps it newest first. */
  lemma {:induction false} InsertByDateKeepsOrder(f: FileRecord, sorted: seq<FileRecord>)
    requires NewestFirst(sorted)
    ensures NewestFirst(InsertByDate(f, sorted))
  {
    if !(sorted == [] || sorted[0].uploadDate <= f.uploadDate) {
      var rest := InsertByDate(f, sorted[1..]);
      InsertByDateKeepsOrder(f, sorted[1..]);
      assert forall j :: 0 <= j < |rest| ==> rest[j].uploadDate <= rest[0].uploadDate <= sorted[0].uploadDate;
    }
  }

  /** The stable sort by descending `uploadDate` that `getAllFiles` runs. */
  function SortNewestFirst(files: seq<FileRecord>): (r: seq<FileRecord>)
    ensures NewestFirst(r)
    ensures multiset(r) == multiset(files)
  {
    if files == [] then []
    else
      assert files == [files[0]] + files[1..];
      var rest := SortNewestFirst(files[1..]);
      InsertByDateKeepsOrder(files[0], rest);
      InsertByDate(files[0], rest)
  }

  /** The folds that specify the restore, one record further on. */
  lemma RestoreStep(index: Index, nextId: int, dst: Directory, src: Directory, manifest: seq<FileRecord>, i: nat)
    requires index.Valid() && i < |manifest|
    ensures var f, prefix := manifest[i], manifest[..i];
      && ReplayIndex(index, manifest[..i + 1]) == ReplayIndex(index, prefix).Set(f.id, f)
      && RaiseCounter(nextId, manifest[..i + 1])
         == (if f.id >= RaiseCounter(nextId, prefix) then f.id + 1 else RaiseCounter(nextId, prefix))
      && CopyBlobs(dst, manifest[..i + 1], src)
         == (if f.name in src then CopyBlobs(dst, prefix, src)[f.name := src[f.name]] else CopyBlobs(dst, prefix, src))
      && CountCopyable(manifest[..i + 1], src) == CountCopyable(prefix, src) + (if f.name in src then 1 else 0)
  {
    assert manifest[..i + 1][..i] == manifest[..i];
  }

  class MemStorage {
    var filesList: Index
    var fileCurrentId: int
    /** The `uploads` directory. */
    var uploads: Directory
    /** `file_backups/manifest.json`, absent until the first backup. */
    var backupManifest: Option<seq<FileRecord>>
    /** The blob copies in `file_backups`. */
    var backupBlobs: Directory

    ghost predicate Valid()
      reads this
    {
      IndexValid(filesList, fileCurrentId)
    }

    /** The backup directory holds a snapshot of the current index, taken on
        top of the blob copies `before`. */
    ghost predicate BackedUpOver(before: Directory)
      reads this
      requires Valid()
    {
      && backupManifest == Some(filesList.Values())
      && backupBlobs == CopyBlobs(before, filesList.Values(), uploads)
    }

    /** A new process over the directories it finds: an empty index with the
        counter at 1, then the restore step, run before anything else. */
    constructor (uploadDir: Directory, manifest: Option<seq<FileRecord>>, backupDir: Directory)
      ensures Valid()
      ensures backupManifest == manifest && backupBlobs == backupDir
      ensures manifest.None? ==> filesList == Empty() && fileCurrentId == 1 && uploads == uploadDir
      ensures manifest.Some? ==>
        && filesList == ReplayIndex(Empty(), manifest.value)
        && fileCurrentId == RaiseCounter(1, manifest.value)
        && uploads == CopyBlobs(uploadDir, manifest.value, backupDir)
    {
      filesList := Empty();
      fileCurrentId := 1;
      uploads := uploadDir;
      backupManifest := manifest;
      backupBlobs := backupDir;
      new;
      var _ := RestoreFilesFromBackup();
    }

    /** Write the manifest of all records, then copy every readable blob into
        the backup directory under its own key; unreadable blobs are skipped. */
    method BackupFiles()
      requires Valid()
      modifies this`backupManifest, this`backupBlobs
      ensures BackedUpOver(old(backupBlobs))
    {
      var manifest := filesList.Values();
      backupManifest := Some(manifest);
      for i := 0 to |manifest|
        invariant backupManifest == Some(manifest)
        invariant backupBlobs == CopyBlobs(old(backupBlobs), manifest[..i], uploads)
      {
        var fileData := GetFileData(manifest[i].name);
        if fileData.Some? {
          backupBlobs := backupBlobs[manifest[i].name := fileData.value];
        }
        assert manifest[..i + 1][..i] == manifest[..i];
      }
      assert manifest[..|manifest|] == manifest;
    }

    /** Replay the manifest, if there is one: each record goes into the index
        under its original id and raises the counter past that id before its
        blob is copied back, so a record whose blob copy is missing is still
        restored. Returns how many blobs were restored. */
    method RestoreFilesFromBackup() returns (restoredCount: nat)
      requires Valid()
      modifies this
      ensures Valid()
      ensures backupManifest == old(backupManifest) && backupBlobs == old(backupBlobs)
      ensures backupManifest.None? ==>
        && filesList == old(filesList) && fileCurrentId == old(fileCurrentId)
        && uploads == old(uploads) && restoredCount == 0
      ensures backupManifest.Some? ==>
        && filesList == ReplayIndex(old(filesList), backupManifest.value)
        && fileCurrentId == RaiseCounter(old(fileCurrentId), backupManifest.value)
        && uploads == CopyBlobs(old(uploads), backupManifest.value, backupBlobs)
        && restoredCount == CountCopyable(backupManifest.value, backupBlobs)
    {
      if backupManifest.None? {
        return 0;
      }
      var manifest := backupManifest.value;
      restoredCount := 0;
      for i := 0 to |manifest|
        invariant filesList == ReplayIndex(old(filesList), manifest[..i])
        invariant fileCurrentId == RaiseCounter(old(fileCurrentId), manifest[..i])
        invariant uploads == CopyBlobs(old(uploads), manifest[..i], backupBlobs)
        invariant restoredCount == CountCopyable(manifest[..i], backupBlobs)
        invariant backupManifest == old(backupManifest) && backupBlobs == old(backupBlobs)
        invariant IndexValid(filesList, fileCurrentId)
      {
        var file := manifest[i];
        RestoreStep(old(filesList), old(fileCurrentId), old(uploads), backupBlobs, manifest, i);
        ReplayKeepsIndexValid(old(filesList), old(fileCurrentId), manifest[..i + 1]);
        filesList := filesList.Set(file.id, file);
        if file.id >= fileCurrentId {
          fileCurrentId := file.id + 1;
        }
        if file.name in backupBlobs {
          uploads := uploads[file.name := backupBlobs[file.name]];
          restoredCount := restoredCount + 1;
        }
      }
      assert manifest[..|manifest|] == manifest;
    }

    /** `getAllFiles`: every stored record once, newest upload first. */
    function GetAllFiles(): (r: seq<FileRecord>)
      reads this
      requires Valid()
      ensures NewestFirst(r)
      ensures multiset(r) == multiset(filesList.Values())
      ensures forall k :: k in filesList.entries ==> filesList.entries[k] in r
    {
      var vs := filesList.Values();
      assert forall k :: k in filesList.entries ==> filesList.entries[k] in multiset(vs) by {
        forall k | k in filesList.entries ensures filesList.entries[k] in multiset(vs) {
          var i :| 0 <= i < |filesList.keys| && filesList.keys[i] == k;
          assert vs[i] == filesList.entries[k];
        }
      }
      SortNewestFirst(vs)
    }

    /** `getFile(id)`. */
    function GetFile(id: int): (r: Option<FileRecord>)
      reads this
      requires Valid()
      ensures r.None? <==> id !in filesList.entries
      ensures r.Some? ==> r.value == filesList.entries[id] && r.value.id == id
    {
      filesList.Get(id)
    }

    /** `getFileByName(name)`: the first record in map order whose storage key
        or original name is `name`. */
    function GetFileByName(name: string): (r: Option<FileRecord>)
      reads this
      requires Valid()
      ensures r.None? <==> forall k :: k in filesList.entries ==> !NamedBy(filesList.entries[k], name)
      ensures r.Some? ==> NamedBy(r.value, name)
      ensures r.Some? ==> exists i :: (0 <= i < |filesList.keys| && filesList.entries[filesList.keys[i]] == r.value
        && forall j :: 0 <= j < i ==> !NamedBy(filesList.entries[filesList.keys[j]], name))
    {
      var vs := filesList.Values();
      match FindByName(vs, name)
      case None =>
        assert forall k :: k in filesList.entries ==> !NamedBy(filesList.entries[k], name) by {
          forall k | k in filesList.entries ensures !NamedBy(filesList.entries[k], name) {
            var i :| 0 <= i < |filesList.keys| && filesList.keys[i] == k;
            assert vs[i] == filesList.entries[k];
          }
        }
        None
      case Some(i) =>
        assert filesList.keys[i] in filesList.entries;
        assert vs[i] == filesList.entries[filesList.keys[i]];
        assert forall j :: 0 <= j < i ==> vs[j] == filesList.entries[filesList.keys[j]];
        Some(vs[i])
    }

    /** `createFile`: the record gets the current counter as its id, no
        downloads and the given upload time; the counter moves on by one and a
        backup follows. */
    method CreateFile(insertFile: InsertFile, now: int) returns (file: FileRecord)
      requires Valid()
      modifies this
      ensures Valid()
      ensures file == FileRecord(old(fileCurrentId), insertFile.name, insertFile.originalName,
                                 insertFile.description, insertFile.fileType, insertFile.size, 0, now)
      ensures forall k :: k in old(filesList.entries) ==> k < file.id
      ensures fileCurrentId == old(fileCurrentId) + 1
      ensures filesList == old(filesList).Set(file.id, file)
      ensures uploads == old(uploads)
      ensures BackedUpOver(old(backupBlobs))
    {
      var id := fileCurrentId;
      fileCurrentId := fileCurrentId + 1;
      file := FileRecord(id, insertFile.name, insertFile.originalName,
                         insertFile.description, insertFile.fileType, insertFile.size, 0, now);
      filesList := filesList.Set(id, file);
      BackupFiles();
    }

    /** `deleteFile(id)`: false and no change for an unknown id; otherwise the
        blob is deleted (a missing blob is no obstacle), the record removed
        and a backup taken. */
    method DeleteFile(id: int) returns (deleted: bool)
      requires Valid()
      modifies this
      ensures Valid()
      ensures deleted <==> id in old(filesList.entries)
      ensures !deleted ==> unchanged(this)
      ensures deleted ==>
        && filesList == old(filesList).Delete(id)
        && uploads == old(uploads) - {old(filesList.entries[id]).name}
        && fileCurrentId == old(fileCurrentId)
        && BackedUpOver(old(backupBlobs))
    {
      var file := GetFile(id);
      if file.None? {
        return false;
      }
      var _ := DeleteFileData(file.value.name);
      filesList := filesList.Delete(id);
      BackupFiles();
      return true;
    }

    /** `incrementDownloadCount(id)`: the record's `downloads` goes up by one,
        nothing else changes, and a backup runs when the new count is a
        multiple of 5. */
    method IncrementDownloadCount(id: int) returns (updated: Option<FileRecord>)
      requires Valid()
      modifies this
      ensures Valid()
      ensures updated.None? <==> id !in old(filesList.entries)
      ensures updated.None? ==> unchanged(this)
      ensures updated.Some? ==>
        var f := old(filesList.entries[id]);
        && updated.value == f.(downloads := f.downloads + 1)
        && filesList == old(filesList).Set(id, updated.value)
        && filesList.keys == old(filesList.keys)
        && fileCurrentId == old(fileCurrentId) && uploads == old(uploads)
        && (updated.value.downloads % 5 == 0 ==> BackedUpOver(old(backupBlobs)))
        && (updated.value.downloads % 5 != 0 ==>
              backupManifest == old(backupManifest) && backupBlobs == old(backupBlobs))
    {
      var file := GetFile(id);
      if file.None? {
        return None;
      }
      var updatedFile := file.value.(downloads := file.value.downloads + 1);
      filesList := filesList.Set(id, updatedFile);
      if updatedFile.downloads % 5 == 0 {
        BackupFiles();
      }
      return Some(updatedFile);
    }

    /** `saveFileData`: write `data` under a key made of a fresh uuid and the
        original name's extension. A failed write (`writeOk` false) changes
        nothing and reports "Failed to save file". */
    method SaveFileData(originalFilename: string, data: Bytes, uuid: string, writeOk: bool)
      returns (r: Result<string>)
      requires IsUuid(uuid) && uuid + ExtName(originalFilename) !in uploads
      modifies this`uploads
      ensures writeOk ==> r == Ok(uuid + ExtName(originalFilename))
      ensures writeOk ==> ExtName(r.value) == ExtName(originalFilename)
      ensures writeOk ==> r.value !in old(uploads) && uploads == old(uploads)[r.value := data]
      ensures !writeOk ==> r == Err("Failed to save file") && uploads == old(uploads)
    {
      var uniqueFilename := uuid + ExtName(originalFilename);
      if !writeOk {
        return Err("Failed to save file");
      }
      uploads := uploads[uniqueFilename := data];
      StoredKeyKeepsExtension(uuid, originalFilename);
      return Ok(uniqueFilename);
    }

    /** `getFileData`: the blob, or nothing when it cannot be read. */
    function GetFileData(filename: string): (r: Option<Bytes>)
      reads this
      ensures r.Some? <==> filename in uploads
      ensures r.Some? ==> r.value == uploads[filename]
    {
      if filename in uploads then Some(uploads[filename]) else None
    }

    /** `deleteFileData`: remove the blob; false, not an error, when it is
        missing. */
    method DeleteFileData(filename: string) returns (ok: bool)
      modifies this`uploads
      ensures ok <==> filename in old(uploads)
      ensures uploads == old(uploads) - {filename}
    {
      if filename !in uploads {
        return false;
      }
      uploads := uploads - {filename};
      return true;
    }
  }
}
