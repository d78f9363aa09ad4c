# File distribution system: the verified core

This project models the part of the file distribution system that holds its
logic: the server's file store (`MemStorage`), the HTTP handlers that upload,
list, download and delete files, the browser's file-list filter, and the
upload zone's check on dropped or chosen files. Each piece is written in the
form the program uses. The store is a class whose methods update its fields in
place. The handlers are methods that call it in the program's order. The
filter is a pure function. The upload zone is a class with an indexed loop.

The store (`Storage.MemStorage`) has these parts:

- the metadata index, a JavaScript `Map` from id to record that remembers
  insertion order (`JsMap.OrderedMap`);
- the next-id counter;
- the `uploads` directory of blobs;
- the `file_backups` snapshot: a manifest of all records plus a copy of each
  blob.

Directories are maps from file name to bytes, and an unreadable file is a
missing key. `crypto.randomUUID` is a parameter. Its precondition is that it
has the UUID shape and that the key it produces is not yet taken. A failed
blob write in `saveFileData` is the boolean `writeOk`, and
`insertFileSchema.parse` is a parameter that returns the validation message
or nothing. The restore that the constructor starts runs as the constructor's
last step, before any other operation. The 100 MiB multer limit is a
precondition of the upload handler.

Where the behaviour of the code differs from what its design describes, the
model follows the code:

- The next-id counter is not saved in the snapshot. After a restart it is one
  past the largest surviving id (`Storage.RestartCounter`), so the id of a
  record deleted after the newest surviving one is handed out again. Within
  one process, ids are never reused.
- Downloads are always sent with `Content-Disposition: attachment`. The code
  has no inline variant.
- A download is counted before its headers are set. When Node refuses the
  original name in the `Content-Disposition` header, the handler answers 500
  with the count already raised (see Findings).
- Files whose extension is not `.exe`, `.bat` or `.zip` are not refused. They
  are stored with type `other` (see Findings).
- The browser and the server find extensions differently. The browser takes
  the text after the last `.`, or the whole name when there is none. The
  server uses `path.extname`, which is empty for such a name and for a
  dot-file such as `.exe`. So `EXE` and `.exe` pass the browser's check but
  are stored as `other` (`CrossChecks`).

## Model

| member | source | states |
|---|---|---|
| Schema.ParseFileType | shared/schema.ts:41 | the enum accepts exactly "exe", "bat", "zip" and "other", and the parsed member is spelled as the input |
| JsMap.Empty | server/storage.ts:37 | `new Map()` is a valid map with no values, and `get` finds nothing in it |
| JsMap.OrderedMap.Get | server/storage.ts:156 | `map.get(k)` gives the value stored under `k`, and finds something exactly for the keys in the iteration order |
| JsMap.OrderedMap.ValuesListEveryEntry | server/storage.ts:150 | `Array.from(map.values())` has one value per key, and every stored value is among them |
| JsMap.OrderedMap.Set | server/storage.ts:175 | `map.set` stores the value under the key; a new key goes last in iteration order and an existing key keeps its place |
| JsMap.OrderedMap.Delete | server/storage.ts:189 | `map.delete` removes exactly that key's entry and drops the key from the order, keeping the others in order |
| NodePath.ExtName | server/storage.ts:219 | `path.extname` is empty or a '.' followed by text without '.' or '/' |
| NodePath.ExtNameOfStemAndExt | server/routes.ts:41 | the extension of `stem.ext` (stem non-empty, no '/') is `.ext` |
| NodePath.StoredKeyKeepsExtension | server/storage.ts:219 | a key made of a uuid and the original name's extension has that same extension |
| Storage.MemStorage.constructor | server/storage.ts:35-55 | a new store starts empty with counter 1 and replays the manifest, if there is one, before anything else |
| Storage.MemStorage.BackupFiles | server/storage.ts:58-86 | the manifest becomes the current record list in map order, and every readable blob of a listed record is copied under its own key over the old backup directory |
| Storage.MemStorage.RestoreFilesFromBackup | server/storage.ts:88-129 | without a manifest nothing changes; otherwise each record is set under its own id, the counter is raised past it, and its blob is copied back when the backup has it; the count is the number of blobs copied |
| Storage.ReplayIndex | server/storage.ts:107-113 | setting each manifest record under its id, in manifest order, keeps the map valid |
| Storage.ReplayKeepsIndexValid | server/storage.ts:107-113 | replaying any manifest keeps each record under its own id and the counter above every id |
| Storage.CopyBlobsIsUnion | server/storage.ts:72-81 | copying blobs for a manifest overwrites the target with exactly the source blobs that a manifest record names |
| Storage.ReplaySnapshotRestoresIndex | server/storage.ts:107-113 | replaying the snapshot of an index into an empty index gives back the same ids, records and order |
| Storage.RestartCounter | server/storage.ts:111-113 | after replaying a snapshot, the counter is one past the largest surviving id (1 when none survive) and never above the old counter |
| Storage.RaiseCounterBound | server/storage.ts:111-113 | the raised counter is never below its start and is above every replayed id |
| Storage.MemStorage.GetAllFiles | server/storage.ts:149-153 | every stored record is returned exactly once, newest upload first |
| Storage.InsertByDateKeepsOrder | server/storage.ts:150-152 | inserting a record into a list ordered newest first keeps it ordered newest first |
| Storage.SortNewestFirst | server/storage.ts:150-152 | the sort result is ordered by non-increasing upload date and is a permutation of its input |
| Storage.MemStorage.GetFile | server/storage.ts:155-157 | the record stored under the id, or nothing exactly when the id is absent |
| Storage.FindByName | server/storage.ts:160-162 | the first position whose key or original name equals the name, or nothing exactly when none does |
| Storage.MemStorage.GetFileByName | server/storage.ts:159-163 | the first record in map order whose key or original name equals the name, or nothing exactly when no record matches |
| Storage.MemStorage.CreateFile | server/storage.ts:165-181 | the record gets the old counter as its id, no downloads and the given time; the id is above every id in use; the counter rises by exactly 1; the record is added under its id with the others unchanged; a backup follows |
| Storage.MemStorage.DeleteFile | server/storage.ts:183-199 | true exactly when the id was present; then only that record and its blob are removed (a missing blob is no obstacle) and a backup follows; otherwise nothing changes |
| Storage.MemStorage.IncrementDownloadCount | server/storage.ts:201-215 | an absent id gives nothing and no change; otherwise that record's downloads rise by exactly 1, nothing else changes, and a backup runs exactly when the new count is a multiple of 5 |
| Storage.MemStorage.SaveFileData | server/storage.ts:218-229 | the blob is stored under a fresh key of uuid plus the original extension; a failed write changes nothing and reports "Failed to save file" |
| Storage.MemStorage.GetFileData | server/storage.ts:231-240 | the stored bytes, or nothing exactly when the key is missing |
| Storage.MemStorage.DeleteFileData | server/storage.ts:242-252 | the key is removed; the result is true exactly when it was present |
| StorageProperties.BlobSurvivesBackupAndRestore | server/storage.ts:72-122 | a blob readable when the backup ran is read back with the same bytes after the restore, whatever either directory held |
| StorageProperties.Redeploy | server/storage.ts:35-129 | a process that starts over a backup and an empty uploads directory gets the same index, every blob that was readable, and a counter not above the old one |
| StorageProperties.IdsAreNotReused | server/storage.ts:165-199 | inserting three records, deleting the second and inserting again gives ids 1, 2, 3, 4 |
| StorageProperties.BlobRoundTrip | server/storage.ts:218-252 | the saved key keeps the extension and reads back the bytes; after a delete the read fails and a second delete returns false |
| StorageProperties.RepeatedDownloads | server/storage.ts:201-215 | n downloads raise the record's count by exactly n and leave every other record unchanged |
| Routes.ExtensionTag | server/routes.ts:41 | the tag is `path.extname` lower-cased without its leading '.', empty when there is no extension, and holds no '.' or '/' |
| Routes.ClassifyFileType | server/routes.ts:41-46 | the type is always one of exe, bat, zip and other |
| Routes.ClassificationRule | server/routes.ts:41-55 | the type is the lower-cased extension without its dot when that is exe, bat or zip, and "other" otherwise, so `FileTypeEnum.parse` always accepts it |
| Routes.ExtensionTagOfStemAndExt | server/routes.ts:41 | the extension tag of `stem.ext` is `ext` lower-cased |
| Routes.DescriptionOrDefault | server/routes.ts:67 | the stored description is never empty: the given one when it is non-empty, else "<originalname> file" |
| Routes.UploadMetadata | server/routes.ts:64-70 | the metadata's name is the stored key, its original name and size are the upload's, its type is the classified one, and its description is the given one or "<originalname> file" when that is missing or empty |
| Routes.UploadFile | server/routes.ts:34-92 | no file gives 400 and no change; a failed blob write gives 500 and no change; a rejected metadata gives 400 with its message and leaves the blobs as they were; otherwise 201 with the new record, stored with the blob and backed up |
| Routes.UploadReceived | server/routes.ts:40-87 | with a file present: the type check, the blob write (500 on failure) and the metadata step, in that order |
| Routes.CreateOrCleanUp | server/routes.ts:72-87 | a rejected metadata deletes the saved blob and gives 400 with the validation message; an accepted one creates the record and gives 201 |
| Routes.DeleteFileRoute | server/routes.ts:95-112 | a NaN id gives 400, an unknown id 404, both with no change; a known id is deleted with its blob, a backup follows, and it gives 204 |
| Routes.AttachmentDisposition | server/routes.ts:137 | the original name can be read back between the quotes, and Node accepts the header value exactly when it accepts the name |
| Routes.DownloadFileRoute | server/routes.ts:115-145 | a bad id gives 400, a missing record 404, a missing blob 404, each with no change; otherwise the count rises by 1, a backup runs exactly when the new count is a multiple of 5, and then the blob is sent as an octet-stream attachment named after the original file with its byte length, or 500 when Node refuses that name in a header |
| Routes.ListFilesRoute | server/routes.ts:23-31 | 200 with every stored record once, newest first |
| StrictUpload.VirusScrPassesTypeCheck | server/routes.ts:41-55 | "virus.scr" is classified "other", which the enum accepts |
| StrictUpload.DisallowedExtensionIsStored | server/routes.ts:34-92 | a file whose extension is not exe, bat or zip is answered with 201, its record with type "other" is added to the map under the next id, and its blob is written under its stored key |
| CheckedDownload.RefusedCharacterRefusesHeader | server/routes.ts:137 | a name holding a character Node refuses in a header (such as '文' or DEL) gives a refused `Content-Disposition` value |
| CheckedDownload.RefusedNameIsCounted | server/routes.ts:133-143 | downloading a stored file whose name Node refuses in a header answers 500 and still raises its count by 1 |
| CheckedDownload.DownloadFileRouteChecked | server/routes.ts:115-145 | with the header built before counting: every answer other than 200 leaves the store unchanged, 200 comes exactly for a present record and blob whose name Node accepts, and the count rises by 1 exactly when the blob is sent |
| StrictUpload.UploadFileStrict | server/routes.ts:48-55 | a file classified "other" gets 400 with the invalid-type message before any blob is written; every stored record keeps one of the three allowed types |
| FileList.MatchesType | client/src/components/file-list.tsx:24 | "all" matches every record; any other choice matches the records whose type the schema's enum reads that choice as |
| FileList.MatchesSearch | client/src/components/file-list.tsx:27-30 | a record matches exactly when the lower-cased query occurs in its lower-cased name or description; the empty-query and empty-description guards change nothing |
| FileList.FilterFiles | client/src/components/file-list.tsx:22-33 | a file is shown exactly when it is in the list, its type matches the filter, and the search is empty or occurs in its lower-cased name or non-empty description |
| FileList.FilterIsSubsequence | client/src/components/file-list.tsx:22-33 | the shown list is the given list with some files dropped, the rest in the same order |
| FileList.NoFilterShowsAll | client/src/components/file-list.tsx:24-28 | with "all" types and an empty search every file is shown, in order |
| FileList.FilterIdempotent | client/src/components/file-list.tsx:22-33 | filtering the shown list again with the same settings changes nothing |
| FileList.EmptyDescriptionSearchesName | client/src/components/file-list.tsx:27-30 | a file with an empty description matches a search only through its original name |
| FileList.NarrowerQueryMatchesLess | client/src/components/file-list.tsx:27-30 | a file matching a query matches every query it contains |
| FileList.RefineSearch | client/src/components/file-list.tsx:22-33 | the results for a longer query are the results for a query it contains, filtered again |
| FileList.SearchIgnoresCase | client/src/components/file-list.tsx:27 | a query and its lower-cased form show the same files |
| FileList.OtherListedOnlyUnderAll | client/src/components/file-list.tsx:24 | with the menu's choices (all, exe, bat, zip), a record of type "other" is shown only under "all" |
| UploadZone.AfterLastDotIsLastSegment | client/src/components/ui/upload-zone.tsx:56 | `split('.').pop()` gives the longest end of the name without '.': an end of the name, free of '.', and either the whole name or preceded by '.' |
| UploadZone.AfterLastDotOfPlainName | client/src/components/ui/upload-zone.tsx:56 | a name without '.' is its own last segment |
| UploadZone.ClientExtension | client/src/components/ui/upload-zone.tsx:56 | the extension is already lower-case and holds no '.' |
| UploadZone.PlainNameExtension | client/src/components/ui/upload-zone.tsx:56 | a name without '.' is its own extension, lower-cased, so "EXE" has the extension "exe" |
| UploadZone.Rejection | client/src/components/ui/upload-zone.tsx:58-74 | a file is refused exactly when its extension is not exe, bat or zip or it is over 100 MiB; a bad extension gets the invalid-type toast whatever the size, and the too-large toast comes only for an allowed extension |
| UploadZone.FirstRejected | client/src/components/ui/upload-zone.tsx:54-77 | there is no refused position exactly when every file passes; otherwise it is the position of a refused file all of whose predecessors pass |
| UploadZone.AfterLastDotOfStemAndExt | client/src/components/ui/upload-zone.tsx:56 | the last '.'-separated segment of `stem.ext` is `ext` when `ext` has no '.' |
| UploadZone.ClientExtensionOfStemAndExt | client/src/components/ui/upload-zone.tsx:56 | the extension of `stem.ext` is `ext` lower-cased |
| UploadZone.UpperCaseExtensionAccepted | client/src/components/ui/upload-zone.tsx:56-58 | an "EXE" extension passes |
| UploadZone.TrailingDotRejected | client/src/components/ui/upload-zone.tsx:56-65 | a name ending in '.' has an empty extension and gets the invalid-type toast |
| UploadZone.SizeBoundary | client/src/components/ui/upload-zone.tsx:67-74 | 104857600 bytes pass and 104857601 bytes get the too-large toast |
| UploadZone.UploadZone.ValidateFiles | client/src/components/ui/upload-zone.tsx:53-78 | true exactly when every file passes; otherwise false with one toast, that of the first refused file |
| UploadZone.UploadZone.SelectIfValid | client/src/components/ui/upload-zone.tsx:30-37 | a missing or empty list changes nothing; otherwise the first refusal's toast is shown, or, when every file passes, the list is handed on |
| UploadZone.UploadZone.HandleDrop | client/src/components/ui/upload-zone.tsx:25-39 | the drag ends; a non-empty drop is handed on only when it passes, and a refusal shows its toast |
| UploadZone.UploadZone.HandleFileInputChange | client/src/components/ui/upload-zone.tsx:41-51 | a non-empty selection is handed on only when it passes, and a refusal shows its toast |
| UploadZone.UploadZone.HandleDragOver | client/src/components/ui/upload-zone.tsx:13-17 | a drag over the zone highlights it |
| UploadZone.UploadZone.HandleDragLeave | client/src/components/ui/upload-zone.tsx:19-23 | leaving the zone removes the highlight |
| CrossChecks.OrdinaryNamesAgree | client/src/components/ui/upload-zone.tsx:56-58 | for `stem.ext` the browser and the server see the same extension, so the browser passes the name exactly when the server does not classify it "other" |
| CrossChecks.DotFileTag | server/routes.ts:41 | `path.extname` of a dot-file ".ext" is empty |
| CrossChecks.DotFileDisagrees | client/src/components/ui/upload-zone.tsx:56-58 | a dot-file such as ".exe" passes the browser's check, but the server classifies it "other" |
| CrossChecks.BareNameDisagrees | client/src/components/ui/upload-zone.tsx:56-58 | a name without '.' such as "EXE" passes the browser's check, but the server classifies it "other" |

## Left out

- The user table (`getUser`, `getUserByUsername`, `createUser`): no route uses it.
- Real filesystem calls are modelled as maps. Directory creation is not modelled. A failed write to the backup directory, a failed write into `uploads` during restore, and an unreadable or malformed manifest are not modelled either; the code logs these and carries on.
- `path.join` normalisation of blob names: a name is used as a key as it stands.
- Manifest serialisation (`JSON.stringify` / `JSON.parse`), including the change of `uploadDate` from a date to a string. The manifest is a sequence of records, and `uploadDate` is an integer timestamp.
- The asynchronous, unawaited start-up in the constructor and any interleaving of requests. The restore runs as the constructor's last step, and each operation is atomic.
- Lower-casing covers ASCII letters only; JavaScript's `toLowerCase` also folds other scripts. This is exact for the comparisons with exe, bat and zip, and approximate for the search.
- JavaScript numbers are unbounded integers here: ids, sizes, counts and timestamps never lose precision.
- A null description is the empty string; both are falsy wherever it is read.
- Zod, multer and Express are parameters or preconditions:
  - The metadata validation is a function from the metadata to an optional message.
  - An error that is not a `ZodError` is rethrown and becomes a 500. The model does not include it, because the validation is its only source.
  - The multer size limit is a precondition, because multer refuses larger uploads before the handler runs.
- `parseInt` of the id is an optional integer (none for NaN).
- The `catch` in `deleteFile` cannot fire, because `deleteFileData` reports failure by returning false. The model has no such path.
- The 500 answers for an error thrown in the GET and DELETE handlers: nothing the model includes throws there. In the download handler the one modelled throw is Node's refusal of the `Content-Disposition` value; `Content-Type` is a constant and `Content-Length` a number, which Node always accepts.
- Storage.MemStorage.GetAllFiles: the ensures says the result is ordered newest first and is a permutation, but not that records with the same upload date keep map order. `Array.prototype.sort` is stable, and `Storage.SortNewestFirst` is stable too.
- Console logging, the React rendering, the download progress panel, `formatFileSize` (floating point) and `formatDate`.

## Findings

| source | as written | input that shows it | evidently intended | confidence | as-written member | corrected member |
|---|---|---|---|---|---|---|
| server/routes.ts:48-55 | the type check parses the classified type with `FileTypeEnum`, which includes "other", so it never fails and any extension is stored | an upload named "virus.scr" is answered with 201 and stored with type "other" | refuse with 400, before saving anything, a file whose extension is not .exe, .bat or .zip, as the error message says | not executed | StrictUpload.DisallowedExtensionIsStored | StrictUpload.UploadFileStrict |
| server/routes.ts:133-143 | the download count is raised before the `Content-Disposition` header is set, and Node's `setHeader` throws for a value holding a character outside tab, ' '-'~' and U+0080-U+00FF, so the catch answers 500 after the count went up | a stored file whose original name is "文件.exe" (or holds DEL): its download answers 500 "Failed to download file" and its count rises by 1 | a download is counted only when it is sent: the header is built first, so a refused name answers 500 with the store unchanged | not executed | CheckedDownload.RefusedNameIsCounted | CheckedDownload.DownloadFileRouteChecked |
