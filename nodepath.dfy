/** Node's POSIX `path.extname`, which the server uses both to classify an
    upload and to give the stored blob the upload's extension. */
module NodePath {
  import opened Wrappers
  import opened Strings

  /** `p` without the run of '/' characters at its end. */
  function TrimTrailingSlashes(p: string): (r: string)
    ensures |r| <= |p| && r == p[..|r|]
    ensures r == "" || r[|r| - 1] != '/'
  {
    if |p| > 0 && p[|p| - 1] == '/' then TrimTrailingSlashes(p[..|p| - 1]) else p
  }

  /** The last path component of `p`, the part `extname` looks at. */
  function LastComponent(p: string): (b: string)
    ensures '/' !in b
  {
    var t := TrimTrailingSlashes(p);
    match LastIndexOf(t, '/')
    case None => t
    case Some(k) => t[k + 1..]
  }

  /** `path.extname(p)`: from the last '.' of the last component to its end;
      empty when there is no '.', when that '.' is the component's first
      character (a dot-file such as ".exe"), and for the component "..". */
  function ExtName(p: string): (e: string)
    ensures e == "" || (e[0] == '.' && '.' !in e[1..] && '/' !in e)
  {
    var b := LastComponent(p);
    match LastIndexOf(b, '.')
    case None => ""
    case Some(d) => if d == 0 || b == ".." then "" else b[d..]
  }

  /** The shape of `crypto.randomUUID()`: 36 hexadecimal digits and dashes. */
  predicate IsUuid(u: string)
  {
    |u| == 36 && forall i :: 0 <= i < |u| ==> u[i] in "0123456789abcdef-"
  }

  /** A string without '/' is its own last component. */
  lemma NoSlashIsLastComponent(s: string)
    requires '/' !in s
    ensures LastComponent(s) == s
  {
    assert s == "" || s[|s| - 1] != '/';
    assert TrimTrailingSlashes(s) == s;
  }

  /** A name with neither '/' nor '.' has no extension. */
  lemma ExtNameOfPlainName(s: string)
    requires '/' !in s && '.' !in s
    ensures ExtName(s) == ""
  {
    NoSlashIsLastComponent(s);
  }

  /** A name `stem.ext` without '/' whose stem is not empty has the extension
      ".ext", whatever dots the stem holds ("..exe" has ".exe"), except for
      the name "..". */
  lemma {:induction false} ExtNameOfStemAndExt(stem: string, ext: string)
    requires stem != "" && '/' !in stem && '/' !in ext && '.' !in ext
    requires stem + "." + ext != ".."
    ensures ExtName(stem + "." + ext) == "." + ext
  {
    var s := stem + "." + ext;
    NoSlashInStemAndExt(stem, ext);
    NoSlashIsLastComponent(s);
    LastDotOfStemAndExt(stem, ext);
    assert s[|stem|..] == "." + ext;
  }

  lemma NoSlashInStemAndExt(stem: string, ext: string)
    requires '/' !in stem && '/' !in ext
    ensures '/' !in stem + "." + ext
  {
    var s := stem + "." + ext;
    forall i | 0 <= i < |s| ensures s[i] != '/' {
      if i < |stem| { assert s[i] == stem[i]; }
      else if i > |stem| { assert s[i] == ext[i - |stem| - 1]; }
    }
  }

  /** The last '.' of `stem.ext` is the one before `ext`. */
  lemma LastDotOfStemAndExt(stem: string, ext: string)
    requires '.' !in ext
    ensures LastIndexOf(stem + "." + ext, '.') == Some(|stem|)
  {
    var s := stem + "." + ext;
    assert s[|stem|] == '.';
    assert s[|stem| + 1..] == ext;
  }

  /** A uuid holds neither '/' nor '.'. */
  lemma UuidHasNoSeparators(uuid: string)
    requires IsUuid(uuid)
    ensures '/' !in uuid && '.' !in uuid
  {
    forall i | 0 <= i < |uuid| ensures uuid[i] != '/' && uuid[i] != '.' {
      assert uuid[i] in "0123456789abcdef-";
    }
  }

  /** Appending an extension to a plain, non-empty stem gives a name with that
      extension. */
  lemma {:induction false} ExtNameOfPlainStem(stem: string, e: string)
    requires stem != "" && '/' !in stem && '.' !in stem
    requires e == "" || (e[0] == '.' && '.' !in e[1..] && '/' !in e)
    ensures ExtName(stem + e) == e
  {
    if e == "" {
      assert stem + e == stem;
      ExtNameOfPlainName(stem);
    } else {
      assert e == "." + e[1..];
      assert stem + e == stem + "." + e[1..];
      assert (stem + e)[0] == stem[0] != '.';
      ExtNameOfStemAndExt(stem, e[1..]);
    }
  }

  /** A stored key `uuid + extname(original)` has the original's extension, so
      later extension-based sniffing of the key sees what the upload had. */
  lemma StoredKeyKeepsExtension(uuid: string, original: string)
    requires IsUuid(uuid)
    ensures ExtName(uuid + ExtName(original)) == ExtName(original)
  {
    UuidHasNoSeparators(uuid);
    ExtNameOfPlainStem(uuid, ExtName(original));
  }
}
