/** `src/workspaceFileTester.ts`: when a temp script is opened, look for the workspace
    file it belongs to and open it, warn, or mark the script as ambiguous. */
module WorkspaceFileTester {
  import opened Wrappers
  import opened Text
  import opened Assoc
  import opened WatchedFiles
  import opened Matcher
  import opened Registry

  /** The search pattern for one extension. */
  function Glob(ext: string): string {
    "**/*." + ext
  }

  /** The workspace files found for each extension in turn, concatenated; `find` gives
      the paths the workspace search returns for a pattern. */
  function FoundFor(exts: seq<string>, find: string -> seq<string>): seq<string> {
    if exts == [] then []
    else FoundFor(exts[..|exts| - 1], find) + find(Glob(exts[|exts| - 1]))
  }

  /** A path is a candidate exactly when the search for one of the extensions found it. */
  lemma {:induction false} FoundForMembers(exts: seq<string>, find: string -> seq<string>, x: string)
    ensures x in FoundFor(exts, find) <==> exists i :: 0 <= i < |exts| && x in find(Glob(exts[i]))
    decreases |exts|
  {
    if exts != [] {
      var front := exts[..|exts| - 1];
      FoundForMembers(front, find, x);
      assert forall i :: 0 <= i < |front| ==> front[i] == exts[i];
      if x in find(Glob(exts[|exts| - 1])) {
        assert 0 <= |exts| - 1 < |exts|;
      }
    }
  }

  /** `getFilesMatchingTempFileLanguage`: one search per extension of the language. */
  method GetFilesMatchingTempFileLanguage(lang: Language, find: string -> seq<string>) returns (files: seq<string>)
    ensures files == FoundFor(ExtensionsFor(lang), find)
  {
    var exts := ExtensionsFor(lang);
    files := [];
    for i := 0 to |exts|
      invariant files == FoundFor(exts[..i], find)
    {
      assert exts[..i + 1][..i] == exts[..i];
      files := files + find(Glob(exts[i]));
    }
    assert exts[..|exts|] == exts;
  }

  /** A file without a language is searched for under no extension at all. */
  lemma NoLanguageNoCandidates(find: string -> seq<string>)
    ensures FoundFor(ExtensionsFor(NoLanguage), find) == []
  {
  }

  /** The filter callback: the matcher's verdict on a path given as both the full and
      the relative path. */
  function Keeps(tempFile: WatchedFile, cfg: WatcherConfig): string -> bool {
    x => FileNameMatches(tempFile, x, x, cfg) == Accepted
  }

  /** `files.filter(keep)`. */
  function Filter(files: seq<string>, keep: string -> bool): (r: seq<string>)
    ensures |r| <= |files|
  {
    if files == [] then []
    else
      var front := Filter(files[..|files| - 1], keep);
      var x := files[|files| - 1];
      if keep(x) then front + [x] else front
  }

  /** The kept files are exactly those the callback keeps. */
  lemma {:induction false} FilterMembers(files: seq<string>, keep: string -> bool, x: string)
    ensures x in Filter(files, keep) <==> x in files && keep(x)
    decreases |files|
  {
    if files != [] {
      var front := files[..|files| - 1];
      FilterMembers(front, keep, x);
      assert files == front + [files[|files| - 1]];
    }
  }

  /** The filter of one file keeps it exactly when the callback does. */
  lemma FilterOne(x: string, keep: string -> bool)
    ensures Filter([x], keep) == if keep(x) then [x] else []
  {
    assert [x][..0] == [];
  }

  /** Filtering keeps the order: the filter of two lists joined is the two filters
      joined. */
  lemma {:induction false} FilterAppend(a: seq<string>, b: seq<string>, keep: string -> bool)
    ensures Filter(a + b, keep) == Filter(a, keep) + Filter(b, keep)
    decreases |b|
  {
    if b == [] {
      assert a + b == a;
    } else {
      var front := b[..|b| - 1];
      var y := b[|b| - 1];
      assert (a + b)[..|a + b| - 1] == a + front;
      assert (a + b)[|a + b| - 1] == y;
      FilterAppend(a, front, keep);
    }
  }

  /** Filtering keeps the multiplicity: a kept file occurs as often as in the input, any
      other not at all. */
  lemma {:induction false} FilterCount(files: seq<string>, keep: string -> bool, x: string)
    ensures multiset(Filter(files, keep))[x] == if keep(x) then multiset(files)[x] else 0
    decreases |files|
  {
    if files != [] {
      var front := files[..|files| - 1];
      var y := files[|files| - 1];
      assert files == front + [y];
      FilterCount(front, keep, x);
      assert multiset(files) == multiset(front) + multiset{y};
      if keep(y) {
        assert multiset(Filter(files, keep)) == multiset(Filter(front, keep)) + multiset{y};
      }
    }
  }

  /** `testForFilesMatchingTemp`. */
  method TestForFilesMatchingTemp(tempFile: WatchedFile, find: string -> seq<string>, cfg: WatcherConfig)
    returns (matching: seq<string>)
    ensures matching == Filter(FoundFor(ExtensionsFor(tempFile.language), find), Keeps(tempFile, cfg))
  {
    var files := GetFilesMatchingTempFileLanguage(tempFile.language, find);
    matching := Filter(files, Keeps(tempFile, cfg));
  }

  /** Every matching file carries one of the language's extensions. */
  lemma MatchingHaveLanguageExtension(tempFile: WatchedFile, find: string -> seq<string>, cfg: WatcherConfig, x: string)
    requires x in Filter(FoundFor(ExtensionsFor(tempFile.language), find), Keeps(tempFile, cfg))
    ensures LanguageForExt(PathExt(x)) == tempFile.language
    ensures exists i :: 0 <= i < |ExtensionsFor(tempFile.language)| && x in find(Glob(ExtensionsFor(tempFile.language)[i]))
  {
    FilterMembers(FoundFor(ExtensionsFor(tempFile.language), find), Keeps(tempFile, cfg), x);
    FoundForMembers(ExtensionsFor(tempFile.language), find, x);
  }

  /** What opening a document leads to. */
  datatype Outcome =
    | NoTemp                  // the document is not a watched temp script
    | OpenMatch(path: string) // the one matching workspace file is opened
    | NoMatch                 // a warning: nothing matches
    | MultipleMatches         // an error, and the script is marked ambiguous

  function Classify(matching: seq<string>): (r: Outcome)
    ensures r.OpenMatch? <==> |matching| == 1
    ensures r.OpenMatch? ==> r.path == matching[0]
    ensures r == NoMatch <==> matching == []
    ensures r == MultipleMatches <==> |matching| > 1
  {
    if |matching| == 1 then OpenMatch(matching[0])
    else if |matching| == 0 then NoMatch
    else MultipleMatches
  }

  /** `getTempFileWithPause`: `lookup(0)` is the watcher's answer at once and
      `lookup(1)` its answer after the pause. Returns the file and the number of
      lookups made. */
  method GetTempFileWithPause(lookup: nat -> Option<WatchedFile>) returns (temp: Option<WatchedFile>, lookups: nat)
    ensures 1 <= lookups <= 2
    ensures temp == lookup(lookups - 1)
    ensures lookups == 2 <==> lookup(0).None?
  {
    temp := lookup(0);
    lookups := 1;
    if temp.None? {
      temp := lookup(1);
      lookups := 2;
    }
  }

  /** The outcome for a temp file that was found. */
  method MatchOpened(tempFile: WatchedFile, find: string -> seq<string>, cfg: WatcherConfig) returns (outcome: Outcome)
    ensures outcome == Classify(Filter(FoundFor(ExtensionsFor(tempFile.language), find), Keeps(tempFile, cfg)))
  {
    var matching := TestForFilesMatchingTemp(tempFile, find, cfg);
    outcome := Classify(matching);
  }

  /** `newFileOpen`: the temp file is looked up (with one retry); a single matching
      workspace file is opened, none is warned about, and several mark the watched file
      as matched more than once. */
  method NewFileOpen(watcher: TempWatcher, lookup: nat -> Option<WatchedFile>, find: string -> seq<string>,
                     cfg: WatcherConfig) returns (temp: Option<WatchedFile>, outcome: Outcome)
    requires watcher.Valid()
    modifies watcher
    ensures watcher.Valid()
    ensures temp == if lookup(0).Some? then lookup(0) else lookup(1)
    ensures temp.None? ==> outcome == NoTemp
    ensures temp.Some? ==>
      outcome == Classify(Filter(FoundFor(ExtensionsFor(temp.value.language), find), Keeps(temp.value, cfg)))
    ensures outcome != MultipleMatches ==> watcher.watched == old(watcher.watched)
    ensures outcome == MultipleMatches ==> temp.Some?
    ensures outcome == MultipleMatches ==>
      match Get(old(watcher.watched), temp.value.fileName)
      case None => watcher.watched == old(watcher.watched)
      case Some(f) => watcher.watched == Put(old(watcher.watched), temp.value.fileName, f.(multiMatch := true))
    ensures watcher.notices == old(watcher.notices)
    ensures watcher.createHandles == old(watcher.createHandles) && watcher.deleteHandles == old(watcher.deleteHandles)
  {
    var lookups;
    temp, lookups := GetTempFileWithPause(lookup);
    if temp.None? {
      return temp, NoTemp;
    }
    outcome := MatchOpened(temp.value, find, cfg);
    if outcome == MultipleMatches {
      watcher.MarkMultiMatch(temp.value.fileName);
    }
  }

  /** A filter that keeps one file keeps a file it was given, and no other. */
  lemma FilterSingle(files: seq<string>, keep: string -> bool)
    requires |Filter(files, keep)| == 1
    ensures var x := Filter(files, keep)[0];
      x in files && keep(x) && forall y :: y in files && keep(y) ==> y == x
  {
    var m := Filter(files, keep);
    FilterMembers(files, keep, m[0]);
    forall y | y in files && keep(y) ensures y == m[0] {
      FilterMembers(files, keep, y);
    }
  }

  /** The file opened is the only candidate the matcher accepts. */
  lemma OpenedFileIsOnlyMatch(tempFile: WatchedFile, find: string -> seq<string>, cfg: WatcherConfig)
    requires Classify(Filter(FoundFor(ExtensionsFor(tempFile.language), find), Keeps(tempFile, cfg))).OpenMatch?
    ensures var files := FoundFor(ExtensionsFor(tempFile.language), find);
      var path := Classify(Filter(files, Keeps(tempFile, cfg))).path;
      path in files && FileNameMatches(tempFile, path, path, cfg) == Accepted &&
      forall x :: x in files && FileNameMatches(tempFile, x, x, cfg) == Accepted ==> x == path
  {
    FilterSingle(FoundFor(ExtensionsFor(tempFile.language), find), Keeps(tempFile, cfg));
  }
}
