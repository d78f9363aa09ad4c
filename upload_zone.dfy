/** The upload zone in the browser: drag-over highlighting and the check
    that runs before the selected files are handed on. The toast hook and the
    `onFilesSelected` callback are recorded as the sequences of toasts shown
    and of file lists handed on. */
module UploadZone {
  import opened Wrappers
  import opened Strings

  /** A browser `File`: its name and its size in bytes. */
  datatype ClientFile = ClientFile(name: string, size: nat)

  datatype Toast = Toast(title: string, description: string, variant: string)

  const InvalidTypeToast := Toast("Invalid file type", "Only EXE, BAT, and ZIP files are allowed.", "destructive")
  const TooLargeToast := Toast("File too large", "Files must be less than 100MB.", "destructive")

  /** The size limit the check uses: 100 MiB. */
  const MaxClientBytes: nat := 100 * 1024 * 1024

  /** `name.split('.').pop()`: the text after the last '.', or the whole
      name when it has none. */
  function AfterLastDot(name: string): string
  {
    if name == [] then []
    else if name[|name| - 1] == '.' then []
    else AfterLastDot(name[..|name| - 1]) + [name[|name| - 1]]
  }

  /** The segment `split('.').pop()` returns is the longest end of the name
      that holds no '.': it is an end of the name, has no '.', and is either
      the whole name or preceded by a '.'. */
  lemma {:induction false} AfterLastDotIsLastSegment(name: string)
    ensures var seg := AfterLastDot(name);
      && '.' !in seg
      && |seg| <= |name| && seg == name[|name| - |seg|..]
      && (|seg| < |name| ==> name[|name| - |seg| - 1] == '.')
  {
    if name != [] && name[|name| - 1] != '.' {
      var init := name[..|name| - 1];
      AfterLastDotIsLastSegment(init);
      var seg := AfterLastDot(name);
      assert seg == AfterLastDot(init) + [name[|name| - 1]];
      assert init[|init| - |seg| + 1..] + [name[|name| - 1]] == name[|name| - |seg|..];
    }
  }

  /** `name.split('.').pop()?.toLowerCase()`. */
  function ClientExtension(name: string): (ext: string)
    ensures '.' !in ext
    ensures Lower(ext) == ext
  {
    var seg := AfterLastDot(name);
    AfterLastDotIsLastSegment(name);
    LowerKeepsOut(seg, '.');
    LowerIdempotent(seg);
    Lower(seg)
  }

  /** A name without '.' is its own last segment. */
  lemma AfterLastDotOfPlainName(name: string)
    requires '.' !in name
    ensures AfterLastDot(name) == name
  {
    AfterLastDotIsLastSegment(name);
  }

  /** A name without '.' is its own extension, lower-cased (so a file named
      "EXE" has the extension "exe"). */
  lemma PlainNameExtension(name: string)
    requires '.' !in name
    ensures ClientExtension(name) == Lower(name)
  {
    AfterLastDotOfPlainName(name);
  }

  predicate AllowedExtension(ext: string)
  {
    ext == "exe" || ext == "bat" || ext == "zip"
  }

  /** What the check says about one file: the type is checked before the
      size. */
  function Rejection(f: ClientFile): (toast: Option<Toast>)
    ensures toast.None? <==> AllowedExtension(ClientExtension(f.name)) && f.size <= MaxClientBytes
    ensures !AllowedExtension(ClientExtension(f.name)) ==> toast == Some(InvalidTypeToast)
    ensures AllowedExtension(ClientExtension(f.name)) && f.size > MaxClientBytes ==> toast == Some(TooLargeToast)
  {
    if !AllowedExtension(ClientExtension(f.name)) then Some(InvalidTypeToast)
    else if f.size > MaxClientBytes then Some(TooLargeToast)
    else None
  }

  predicate Accepted(f: ClientFile)
  {
    Rejection(f).None?
  }

  /** The position of the first file in list order that is refused. */
  function FirstRejected(files: seq<ClientFile>): (r: Option<nat>)
    ensures r.None? <==> forall i :: 0 <= i < |files| ==> Accepted(files[i])
    ensures r.Some? ==> r.value < |files| && !Accepted(files[r.value])
    ensures r.Some? ==> forall i :: 0 <= i < r.value ==> Accepted(files[i])
  {
    if files == [] then None
    else if !Accepted(files[0]) then Some(0)
    else
      match FirstRejected(files[1..])
      case None => None
      case Some(i) => Some(i + 1)
  }

  /** The toast for the first refused file, if any. */
  function FirstRejection(files: seq<ClientFile>): Option<Toast>
  {
    match FirstRejected(files)
    case None => None
    case Some(i) => Rejection(files[i])
  }

  lemma {:induction false} AfterLastDotOfStemAndExt(stem: string, ext: string)
    requires '.' !in ext
    ensures AfterLastDot(stem + "." + ext) == ext
  {
    var name := stem + "." + ext;
    if ext != [] {
      var init := ext[..|ext| - 1];
      AfterLastDotOfStemAndExt(stem, init);
      assert name[..|name| - 1] == stem + "." + init;
      assert ext == init + [ext[|ext| - 1]];
    }
  }

  /** For a name `stem.ext` with no '.' in `ext`, the client's extension is
      the lower-cased `ext`. */
  lemma ClientExtensionOfStemAndExt(stem: string, ext: string)
    requires '.' !in ext
    ensures ClientExtension(stem + "." + ext) == Lower(ext)
  {
    AfterLastDotOfStemAndExt(stem, ext);
  }

  /** The extension check ignores case: "SETUP.EXE" passes. */
  lemma UpperCaseExtensionAccepted(stem: string, ext: string, size: nat)
    requires ext == "EXE" && size <= MaxClientBytes
    ensures Accepted(ClientFile(stem + "." + ext, size))
  {
    ClientExtensionOfStemAndExt(stem, ext);
    assert Lower(ext) == "exe";
  }

  /** A name ending in '.' has an empty extension and is refused. */
  lemma TrailingDotRejected(name: string, size: nat)
    requires name != [] && name[|name| - 1] == '.'
    ensures Rejection(ClientFile(name, size)) == Some(InvalidTypeToast)
  {
    assert AfterLastDot(name) == [];
  }

  /** Exactly 100 MiB passes the size check, one byte more does not. */
  lemma SizeBoundary(name: string)
    requires AllowedExtension(ClientExtension(name))
    ensures Accepted(ClientFile(name, 104857600))
    ensures Rejection(ClientFile(name, 104857601)) == Some(TooLargeToast)
  {
  }

  class UploadZone {
    /** Whether a drag is over the zone (the highlighted border). */
    var dragOver: bool
    /** The toasts shown, oldest first. */
    var toasts: seq<Toast>
    /** The file lists handed to `onFilesSelected`, oldest first. */
    var selections: seq<seq<ClientFile>>

    constructor ()
      ensures !dragOver && toasts == [] && selections == []
    {
      dragOver := false;
      toasts := [];
      selections := [];
    }

    method HandleDragOver()
      modifies this`dragOver
      ensures dragOver
    {
      dragOver := true;
    }

    method HandleDragLeave()
      modifies this`dragOver
      ensures !dragOver
    {
      dragOver := false;
    }

    /** `validateFiles`: walk the files in order; at the first one whose
        extension is not exe, bat or zip, or that is over 100 MiB, show that
        toast and answer false; answer true when none is. */
    method ValidateFiles(files: seq<ClientFile>) returns (valid: bool)
      modifies this`toasts
      ensures valid <==> forall i :: 0 <= i < |files| ==> Accepted(files[i])
      ensures valid ==> toasts == old(toasts)
      ensures !valid ==> FirstRejection(files).Some? && toasts == old(toasts) + [FirstRejection(files).value]
    {
      for i := 0 to |files|
        invariant forall j :: 0 <= j < i ==> Accepted(files[j])
        invariant toasts == old(toasts)
      {
        var file := files[i];
        var extension := ClientExtension(file.name);
        if !AllowedExtension(extension) {
          toasts := toasts + [InvalidTypeToast];
          return false;
        }
        if file.size > MaxClientBytes {
          toasts := toasts + [TooLargeToast];
          return false;
        }
      }
      return true;
    }

    /** What a drop and a file-input change share: a missing or empty list
        is ignored; otherwise the list is checked and handed on when it
        passes. */
    method SelectIfValid(files: Option<seq<ClientFile>>)
      modifies this`toasts, this`selections
      ensures files.None? || files.value == [] ==> toasts == old(toasts) && selections == old(selections)
      ensures files.Some? && files.value != [] ==>
        && toasts == old(toasts) + (match FirstRejection(files.value)
                                    case None => []
                                    case Some(t) => [t])
        && selections == old(selections) + (if FirstRejection(files.value).None? then [files.value] else [])
    {
      if files.Some? && |files.value| > 0 {
        var valid := ValidateFiles(files.value);
        if valid {
          selections := selections + [files.value];
        }
      }
    }

    /** Dropping ends the drag and hands on the dropped files if they pass. */
    method HandleDrop(files: Option<seq<ClientFile>>)
      modifies this
      ensures !dragOver
      ensures files.None? || files.value == [] ==> toasts == old(toasts) && selections == old(selections)
      ensures files.Some? && files.value != [] ==>
        && toasts == old(toasts) + (match FirstRejection(files.value)
                                    case None => []
                                    case Some(t) => [t])
        && selections == old(selections) + (if FirstRejection(files.value).None? then [files.value] else [])
    {
      dragOver := false;
      SelectIfValid(files);
    }

    /** Choosing files in the input hands them on if they pass; the drag
        state is untouched. */
    method HandleFileInputChange(files: Option<seq<ClientFile>>)
      modifies this`toasts, this`selections
      ensures files.None? || files.value == [] ==> toasts == old(toasts) && selections == old(selections)
      ensures files.Some? && files.value != [] ==>
        && toasts == old(toasts) + (match FirstRejection(files.value)
                                    case None => []
                                    case Some(t) => [t])
        && selections == old(selections) + (if FirstRejection(files.value).None? then [files.value] else [])
    {
      SelectIfValid(files);
    }
  }
}
