/** The shared record shapes: the `files` table's row, the insert shape that
    omits the server-assigned columns, and the `FileTypeEnum` validator. */
module Schema {
  import opened Wrappers

  type Bytes = seq<bv8>

  /** The closed enumeration of file types. */
  datatype FileType = Exe | Bat | Zip | Other

  /** The enumeration member's spelling. */
  function FileTypeName(t: FileType): string
  {
    match t
    case Exe => "exe"
    case Bat => "bat"
    case Zip => "zip"
    case Other => "other"
  }

  /** `FileTypeEnum.parse(s)`: the member spelled `s`, or a validation
      failure (`None`) for any other string. */
  function ParseFileType(s: string): (r: Option<FileType>)
    ensures r.Some? <==> s in {"exe", "bat", "zip", "other"}
    ensures r.Some? ==> FileTypeName(r.value) == s
  {
    if s == "exe" then Some(Exe)
    else if s == "bat" then Some(Bat)
    else if s == "zip" then Some(Zip)
    else if s == "other" then Some(Other)
    else None
  }

  /** What the upload handler passes to `createFile`. A null description is
      modelled as the empty string: both are falsy wherever it is read. */
  datatype InsertFile = InsertFile(
    name: string,
    originalName: string,
    description: string,
    fileType: FileType,
    size: nat)

  /** A stored file's metadata; `uploadDate` is a timestamp. */
  datatype FileRecord = FileRecord(
    id: int,
    name: string,
    originalName: string,
    description: string,
    fileType: FileType,
    size: nat,
    downloads: nat,
    uploadDate: int)
}
