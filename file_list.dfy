/** The file list's filter: a type filter ("all" or one type name) and a
    case-insensitive search over the original name and the description. */
module FileList {
  import opened Wrappers
  import opened Strings
  import opened Schema

  /** `fileTypeFilter === 'all' || file.type === fileTypeFilter`: "all"
      shows every record, and any other choice shows the records whose type
      the schema's enum reads that choice as. */
  function MatchesType(f: FileRecord, typeFilter: string): (matched: bool)
    ensures matched <==> typeFilter == "all" || ParseFileType(typeFilter) == Some(f.fileType)
  {
    typeFilter == "all" || FileTypeName(f.fileType) == typeFilter
  }

  /** An empty search matches everything; otherwise the lower-cased query
      must occur in the lower-cased original name or in a non-empty
      lower-cased description. Both guards change nothing: the record
      matches exactly when the lower-cased query occurs in its lower-cased
      name or description. */
  function MatchesSearch(f: FileRecord, searchQuery: string): (matched: bool)
    ensures matched <==> Contains(Lower(f.originalName), Lower(searchQuery))
                         || Contains(Lower(f.description), Lower(searchQuery))
  {
    var search := Lower(searchQuery);
    ContainsSelf(Lower(f.originalName));
    || search == ""
    || Contains(Lower(f.originalName), search)
    || (f.description != "" && Contains(Lower(f.description), search))
  }

  predicate Keep(f: FileRecord, typeFilter: string, searchQuery: string)
  {
    MatchesType(f, typeFilter) && MatchesSearch(f, searchQuery)
  }

  /** `files.filter(...)`: the files that pass both filters, in list order. */
  function FilterFiles(files: seq<FileRecord>, typeFilter: string, searchQuery: string): (shown: seq<FileRecord>)
    ensures |shown| <= |files|
    ensures forall f :: f in shown <==> f in files && Keep(f, typeFilter, searchQuery)
  {
    if files == [] then []
    else
      var rest := FilterFiles(files[1..], typeFilter, searchQuery);
      if Keep(files[0], typeFilter, searchQuery) then [files[0]] + rest else rest
  }

  /** `a` is `b` with some elements dropped, the rest in the same order. */
  predicate Subsequence<T(==)>(a: seq<T>, b: seq<T>)
    decreases |b|
  {
    if a == [] then true
    else if b == [] then false
    else if a[0] == b[0] then Subsequence(a[1..], b[1..])
    else Subsequence(a, b[1..])
  }

  lemma SubsequenceOfTail<T>(a: seq<T>, b: seq<T>)
    requires b != [] && Subsequence(a, b[1..])
    ensures Subsequence(a, b)
    decreases |b|, 0
  {
    if a != [] && a[0] == b[0] {
      SubsequenceDropHead(a, b[1..]);
    }
  }

  lemma SubsequenceDropHead<T>(a: seq<T>, c: seq<T>)
    requires a != [] && Subsequence(a, c)
    ensures Subsequence(a[1..], c)
    decreases |c|, 1
  {
    if a[0] == c[0] {
      SubsequenceOfTail(a[1..], c);
    } else {
      SubsequenceDropHead(a, c[1..]);
      SubsequenceOfTail(a[1..], c);
    }
  }

  /** The shown list keeps the order of the given list. */
  lemma {:induction false} FilterIsSubsequence(files: seq<FileRecord>, typeFilter: string, searchQuery: string)
    ensures Subsequence(FilterFiles(files, typeFilter, searchQuery), files)
  {
    if files != [] {
      var rest := FilterFiles(files[1..], typeFilter, searchQuery);
      FilterIsSubsequence(files[1..], typeFilter, searchQuery);
      if Keep(files[0], typeFilter, searchQuery) {
        assert ([files[0]] + rest)[1..] == rest;
      } else {
        SubsequenceOfTail(rest, files);
      }
    }
  }

  /** With "all" types and an empty search every file is shown. */
  lemma {:induction false} NoFilterShowsAll(files: seq<FileRecord>)
    ensures FilterFiles(files, "all", "") == files
  {
    if files != [] {
      NoFilterShowsAll(files[1..]);
      assert [files[0]] + files[1..] == files;
    }
  }

  /** Filtering twice with the same settings shows the same list. */
  lemma {:induction false} FilterIdempotent(files: seq<FileRecord>, typeFilter: string, searchQuery: string)
    ensures var shown := FilterFiles(files, typeFilter, searchQuery);
      FilterFiles(shown, typeFilter, searchQuery) == shown
  {
    if files != [] {
      FilterIdempotent(files[1..], typeFilter, searchQuery);
      var rest := FilterFiles(files[1..], typeFilter, searchQuery);
      if Keep(files[0], typeFilter, searchQuery) {
        assert ([files[0]] + rest)[1..] == rest;
      }
    }
  }

  /** A file with an empty description is found only through its name. */
  lemma EmptyDescriptionSearchesName(f: FileRecord, searchQuery: string)
    requires f.description == ""
    ensures MatchesSearch(f, searchQuery) <==> Lower(searchQuery) == "" || Contains(Lower(f.originalName), Lower(searchQuery))
  {
  }

  /** Typing more: a file that matches a query also matches every part of
      it, so the results for a longer query are a filter of the results for
      a shorter one it contains. */
  lemma NarrowerQueryMatchesLess(f: FileRecord, shorter: string, longer: string)
    requires Contains(longer, shorter)
    requires MatchesSearch(f, longer)
    ensures MatchesSearch(f, shorter)
  {
    ContainsLower(longer, shorter);
    if Lower(longer) == "" {
      assert |Lower(shorter)| <= |Lower(longer)|;
    } else if Contains(Lower(f.originalName), Lower(longer)) {
      ContainsTransitive(Lower(f.originalName), Lower(longer), Lower(shorter));
    } else {
      ContainsTransitive(Lower(f.description), Lower(longer), Lower(shorter));
    }
  }

  lemma {:induction false} RefineSearch(files: seq<FileRecord>, typeFilter: string, shorter: string, longer: string)
    requires Contains(longer, shorter)
    ensures FilterFiles(files, typeFilter, longer)
         == FilterFiles(FilterFiles(files, typeFilter, shorter), typeFilter, longer)
  {
    if files != [] {
      RefineSearch(files[1..], typeFilter, shorter, longer);
      var rest := FilterFiles(files[1..], typeFilter, shorter);
      if Keep(files[0], typeFilter, longer) {
        NarrowerQueryMatchesLess(files[0], shorter, longer);
        assert ([files[0]] + rest)[1..] == rest;
      } else if Keep(files[0], typeFilter, shorter) {
        assert ([files[0]] + rest)[1..] == rest;
      }
    }
  }

  /** The search ignores case. */
  lemma {:induction false} SearchIgnoresCase(files: seq<FileRecord>, typeFilter: string, searchQuery: string)
    ensures FilterFiles(files, typeFilter, Lower(searchQuery)) == FilterFiles(files, typeFilter, searchQuery)
  {
    LowerIdempotent(searchQuery);
    if files != [] {
      SearchIgnoresCase(files[1..], typeFilter, searchQuery);
    }
  }

  /** The type menu offers "all", "exe", "bat" and "zip" only, so a record
      of type "other" is listed only under "all". */
  lemma OtherListedOnlyUnderAll(files: seq<FileRecord>, typeFilter: string, searchQuery: string, f: FileRecord)
    requires typeFilter == "all" || typeFilter == "exe" || typeFilter == "bat" || typeFilter == "zip"
    requires f in FilterFiles(files, typeFilter, searchQuery) && f.fileType == Other
    ensures typeFilter == "all"
  {
  }
}
