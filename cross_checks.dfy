/** Where the browser's extension check and the server's classification
    agree and where they do not. The browser takes the text after the last
    '.', or the whole name; the server takes `path.extname`, which is empty
    for a name without '.' and for a dot-file such as ".exe". */
module CrossChecks {
  import opened Strings
  import opened NodePath
  import opened Routes
  import opened UploadZone

  /** For an ordinary name `stem.ext` both sides see the lower-cased `ext`,
      so a name passes the browser's type check exactly when the server
      classifies it as something other than "other". */
  lemma OrdinaryNamesAgree(stem: string, ext: string)
    requires stem != "" && '/' !in stem && '/' !in ext && '.' !in ext
    requires stem + "." + ext != ".."
    ensures ClientExtension(stem + "." + ext) == ExtensionTag(stem + "." + ext) == Lower(ext)
    ensures AllowedExtension(ClientExtension(stem + "." + ext))
        <==> ClassifyFileType(stem + "." + ext) != "other"
  {
    ClientExtensionOfStemAndExt(stem, ext);
    ExtensionTagOfStemAndExt(stem, ext);
  }

  lemma DotFileTag(ext: string)
    requires ext != "" && '/' !in ext && '.' !in ext
    ensures ExtName("." + ext) == ""
  {
    var name := "." + ext;
    NoSlashIsLastComponent(name);
    assert name[0] == '.';
    assert name[1..] == ext;
  }

  /** A dot-file named after an allowed extension (".exe", ".BAT") passes
      the browser's check but is stored by the server with type "other". */
  lemma DotFileDisagrees(ext: string)
    requires '/' !in ext && '.' !in ext && AllowedExtension(Lower(ext))
    ensures AllowedExtension(ClientExtension("." + ext))
    ensures ClassifyFileType("." + ext) == "other"
  {
    ClientExtensionOfStemAndExt("", ext);
    assert "" + "." + ext == "." + ext;
    assert ext != "";
    DotFileTag(ext);
  }

  /** A name without any '.' that spells an allowed extension ("EXE", "zip")
      passes the browser's check, and the server stores it with type
      "other". */
  lemma BareNameDisagrees(name: string)
    requires '/' !in name && '.' !in name && AllowedExtension(Lower(name))
    ensures AllowedExtension(ClientExtension(name))
    ensures ClassifyFileType(name) == "other"
  {
    PlainNameExtension(name);
    ExtNameOfPlainName(name);
  }
}
