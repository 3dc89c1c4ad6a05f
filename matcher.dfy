/** The rules of `src/tempWatcher.ts` that decide whether a saved workspace file is the
    source of a watched temp script: `fileNameMatchesWatchedFile`, `filePathTests`,
    `testRelativePath`, `testAlternativeRelativePaths` and `createAlternateNameArray`. */
module Matcher {
  import opened Wrappers
  import opened Text
  import opened Assoc
  import opened WatchedFiles

  /** The configuration the watcher reads: the extension list, the hint prefix, the
      directory-prefix flag, and the platform's `path.sep`. */
  datatype WatcherConfig = WatcherConfig(
    fileExtensions: seq<string>,
    hintPrefix: string,
    requireDirPrefix: bool,
    sep: char)

  /** `getFileExtensions`: the configured extensions, lowercased. */
  function FileExtensions(cfg: WatcherConfig): (r: seq<string>)
    ensures |r| == |cfg.fileExtensions|
    ensures forall i :: 0 <= i < |r| ==> r[i] == ToLower(cfg.fileExtensions[i]) && IsLower(r[i])
  {
    seq(|cfg.fileExtensions|, i requires 0 <= i < |cfg.fileExtensions| =>
      ToLowerIdempotent(cfg.fileExtensions[i]); ToLower(cfg.fileExtensions[i]))
  }

  /** The texts a path separator may have been turned into in a script name. */
  const Joiners: seq<string> := ["", " ", "_", "-", "."]

  /** `createAlternateNameArray`: the relative path itself, then with every separator
      replaced by each joiner in turn. */
  function Alternates(relative: string, sep: char): (r: seq<string>)
    ensures |r| == 6 && r[0] == relative
    ensures forall i :: 0 <= i < 5 ==> r[i + 1] == ReplaceAll(relative, [sep], Joiners[i])
  {
    [relative,
     ReplaceAll(relative, [sep], ""),
     ReplaceAll(relative, [sep], " "),
     ReplaceAll(relative, [sep], "_"),
     ReplaceAll(relative, [sep], "-"),
     ReplaceAll(relative, [sep], ".")]
  }

  /** The names a workspace file may have to match a watched file: the script name with
      each of its language's extensions, and then bare. */
  function ScriptNames(file: WatchedFile): (r: seq<string>)
    ensures |r| == |ExtensionsFor(file.language)| + 1 && Last(r) == file.scriptName
  {
    var exts := ExtensionsFor(file.language);
    seq(|exts|, i requires 0 <= i < |exts| => file.scriptName + "." + exts[i]) + [file.scriptName]
  }

  /** `testAlternativeRelativePaths`: some script name is one of the alternates. */
  predicate AnyAlternate(relative: string, scriptNames: seq<string>, sep: char) {
    exists i :: 0 <= i < |scriptNames| && scriptNames[i] in Alternates(relative, sep)
  }

  /** `testRelativePath`. */
  predicate TestRelativePath(relative: string, file: WatchedFile, sep: char) {
    AnyAlternate(relative, ScriptNames(file), sep)
  }

  /** The text after the last of the non-overlapping occurrences of `hint`
      (`s.split(hint).pop()`). */
  function Remainder(s: string, hint: string): (r: string)
    requires |hint| > 0
    ensures !Contains(r, hint) && EndsWith(s, r)
    ensures Contains(s, hint) ==> EndsWith(s, hint + r)
    ensures !Contains(s, hint) ==> r == s
  {
    SplitPiecesAvoid(s, hint);
    SplitLastSuffix(s, hint);
    Last(Split(s, hint))
  }

  /** The directory component the directory-prefix rule puts in front of the relative
      path: the last separator-free piece of the text before the relative path, once
      trailing separators are stripped. */
  function DirComponent(filePath: string, relative: string, sep: char): (r: string)
    ensures sep !in r
    ensures EndsWith(StripTrailing(BeforeFirst(filePath, relative), sep), r)
  {
    var dirPath := StripTrailing(BeforeFirst(filePath, relative), sep);
    SplitLastChar(dirPath, sep);
    Last(Split(dirPath, [sep]))
  }

  /** The hint that is used when it is set and non-empty (`hints[name] || ""`). */
  function HintValue(file: WatchedFile, name: string): string {
    Get(file.hints, name).GetOr("")
  }

  /** `filePathTests`: a `path` hint, else a `project` hint, else the directory-prefix
      rule when configured, else the relative path as it is. */
  predicate FilePathTests(file: WatchedFile, filePath: string, relative: string, cfg: WatcherConfig) {
    var pathHint := HintValue(file, "path");
    var projectHint := HintValue(file, "project");
    if pathHint != "" then
      StartsWith(filePath, pathHint) && TestRelativePath(Remainder(filePath, pathHint), file, cfg.sep)
    else if projectHint != "" then
      Contains(filePath, projectHint) && TestRelativePath(Remainder(filePath, projectHint), file, cfg.sep)
    else if cfg.requireDirPrefix then
      var dir := DirComponent(filePath, relative, cfg.sep);
      JsLength(dir) >= 1 && TestRelativePath(dir + [cfg.sep] + relative, file, cfg.sep)
    else
      TestRelativePath(relative, file, cfg.sep)
  }

  /** The outcome of `fileNameMatchesWatchedFile`, naming the check that failed. A
      language mismatch is the case that also shows the user a warning. */
  datatype Verdict =
    | Accepted
    | RejectedExtension
    | RejectedPath
    | RejectedLanguage(expected: Language, found: Language)

  /** The extension of the saved path, as `fileNameMatchesWatchedFile` takes it. */
  function PathExt(filePath: string): string {
    Last(Split(filePath, "."))
  }

  /** `fileNameMatchesWatchedFile`: three checks in order, the first failure deciding. */
  function FileNameMatches(file: WatchedFile, filePath: string, relative: string, cfg: WatcherConfig): (r: Verdict)
    ensures r == Accepted <==>
      PathExt(filePath) in FileExtensions(cfg) && FilePathTests(file, filePath, relative, cfg)
      && LanguageForExt(PathExt(filePath)) == file.language
    ensures r == RejectedExtension <==> PathExt(filePath) !in FileExtensions(cfg)
    ensures r == RejectedPath <==>
      PathExt(filePath) in FileExtensions(cfg) && !FilePathTests(file, filePath, relative, cfg)
    ensures r.RejectedLanguage? ==>
      r.expected == file.language && r.found == LanguageForExt(PathExt(filePath)) && r.expected != r.found
  {
    var fileExt := PathExt(filePath);
    if fileExt !in FileExtensions(cfg) then RejectedExtension
    else if !FilePathTests(file, filePath, relative, cfg) then RejectedPath
    else
      var lang := LanguageForExt(fileExt);
      if lang != file.language then RejectedLanguage(file.language, lang)
      else Accepted
  }

  // ---------------------------------------------------------------------------
  // The relative-path test in words

  /** The names a watched file answers to: its script name, bare or with an extension
      of its language. */
  predicate IsScriptName(file: WatchedFile, name: string) {
    name == file.scriptName ||
    exists e :: e in ExtensionsFor(file.language) && name == file.scriptName + "." + e
  }

  /** The forms of a relative path: itself, or with every separator replaced by one of
      "", " ", "_", "-" or ".". */
  predicate IsRelativeForm(relative: string, sep: char, name: string) {
    name == relative ||
    exists x :: x in Joiners && name == ReplaceAll(relative, [sep], x)
  }

  lemma ScriptNamesAre(file: WatchedFile, name: string)
    ensures name in ScriptNames(file) <==> IsScriptName(file, name)
  {
    var exts := ExtensionsFor(file.language);
    var names := ScriptNames(file);
    if name in names {
      var i :| 0 <= i < |names| && names[i] == name;
      if i < |exts| {
        assert exts[i] in exts;
      }
    }
    if IsScriptName(file, name) && name != file.scriptName {
      var e :| e in exts && name == file.scriptName + "." + e;
      var i :| 0 <= i < |exts| && exts[i] == e;
      assert names[i] == name;
    }
  }

  lemma AlternatesAre(relative: string, sep: char, name: string)
    ensures name in Alternates(relative, sep) <==> IsRelativeForm(relative, sep, name)
  {
    var alts := Alternates(relative, sep);
    if name in alts {
      var i :| 0 <= i < 6 && alts[i] == name;
      if i > 0 {
        assert Joiners[i - 1] in Joiners;
      }
    }
    if IsRelativeForm(relative, sep, name) && name != relative {
      var x :| x in Joiners && name == ReplaceAll(relative, [sep], x);
      var i :| 0 <= i < 5 && Joiners[i] == x;
      assert alts[i + 1] == name;
    }
  }

  /** The final test succeeds iff one of the six alternate forms of the relative path is
      the script name, bare or with an extension of the file's language. */
  lemma TestRelativePathIff(relative: string, file: WatchedFile, sep: char)
    ensures TestRelativePath(relative, file, sep) <==>
      exists name :: IsRelativeForm(relative, sep, name) && IsScriptName(file, name)
  {
    var names := ScriptNames(file);
    if TestRelativePath(relative, file, sep) {
      var i :| 0 <= i < |names| && names[i] in Alternates(relative, sep);
      ScriptNamesAre(file, names[i]);
      AlternatesAre(relative, sep, names[i]);
    }
    if exists name :: IsRelativeForm(relative, sep, name) && IsScriptName(file, name) {
      var name :| IsRelativeForm(relative, sep, name) && IsScriptName(file, name);
      ScriptNamesAre(file, name);
      AlternatesAre(relative, sep, name);
      var i :| 0 <= i < |names| && names[i] == name;
    }
  }

  /** A relative path made of directory names is recognised when the script name joins
      the same names with any one of the joiners. */
  lemma JoinedPathMatches(parts: seq<string>, x: string, file: WatchedFile, sep: char)
    requires |parts| >= 1 && forall k :: 0 <= k < |parts| ==> sep !in parts[k]
    requires x in Joiners && file.scriptName == Join(parts, x)
    ensures TestRelativePath(Join(parts, [sep]), file, sep)
  {
    var relative := Join(parts, [sep]);
    ReplaceAllJoin(parts, sep, x);
    assert IsRelativeForm(relative, sep, file.scriptName);
    assert IsScriptName(file, file.scriptName);
    TestRelativePathIff(relative, file, sep);
  }

  /** Without a separator every alternate is the relative path itself, so it must be one
      of the file's names exactly. */
  lemma RelativeWithoutSep(relative: string, file: WatchedFile, sep: char)
    requires sep !in relative
    ensures TestRelativePath(relative, file, sep) <==> IsScriptName(file, relative)
  {
    ContainsSingle(relative, sep);
    forall x | x in Joiners ensures ReplaceAll(relative, [sep], x) == relative {
      ReplaceAllAbsent(relative, [sep], x);
    }
    TestRelativePathIff(relative, file, sep);
  }

  /** A relative path holding an upper-case letter other than the separator is never
      recognised: script names are lowercase, the relative path is compared as given. */
  lemma UppercaseRelativeNeverMatches(relative: string, file: WatchedFile, sep: char, i: nat)
    requires i < |relative| && 'A' <= relative[i] <= 'Z' && relative[i] != sep
    requires IsLower(file.scriptName)
    ensures !TestRelativePath(relative, file, sep)
  {
    var names := ScriptNames(file);
    var exts := ExtensionsFor(file.language);
    forall j | 0 <= j < |names| ensures names[j] !in Alternates(relative, sep) {
      assert IsLower(names[j]) by {
        if j < |exts| {
          ToLowerAppend(file.scriptName, ".");
          ToLowerAppend(file.scriptName + ".", exts[j]);
        }
      }
      var alts := Alternates(relative, sep);
      forall a | 0 <= a < 6 ensures alts[a] != names[j] {
        assert relative[i] in alts[a] by {
          if a > 0 {
            ReplaceAllKeeps(relative, sep, Joiners[a - 1], i);
          }
        }
        UpperNotInLower(names[j], relative[i]);
      }
    }
  }

  lemma UpperNotInLower(s: string, c: char)
    requires IsLower(s) && 'A' <= c <= 'Z'
    ensures c !in s
  {
    forall k | 0 <= k < |s| ensures s[k] != c {
      assert ToLower(s)[k] == LowerChar(s[k]);
    }
  }

  // ---------------------------------------------------------------------------
  // The rules of filePathTests

  /** A `path` hint decides alone: the project hint, the relative path and the
      directory-prefix flag play no part. */
  lemma PathHintPrecedence(file: WatchedFile, filePath: string, relative: string, cfg: WatcherConfig,
                           relative': string, cfg': WatcherConfig)
    requires HintValue(file, "path") != "" && cfg'.sep == cfg.sep
    ensures FilePathTests(file, filePath, relative, cfg) ==
      FilePathTests(file.(hints := Remove(file.hints, "project")), filePath, relative', cfg')
  {
  }

  /** With a `path` hint the path must start with it, and the text after its last
      occurrence is tested as the relative path. */
  lemma PathHintRule(file: WatchedFile, filePath: string, relative: string, cfg: WatcherConfig)
    requires HintValue(file, "path") != ""
    ensures var h := HintValue(file, "path");
      FilePathTests(file, filePath, relative, cfg) <==>
        StartsWith(filePath, h) && TestRelativePath(Remainder(filePath, h), file, cfg.sep)
  {
  }

  /** With only a `project` hint the path must contain it, and the text after its last
      occurrence is tested as the relative path. */
  lemma ProjectHintRule(file: WatchedFile, filePath: string, relative: string, cfg: WatcherConfig)
    requires HintValue(file, "path") == "" && HintValue(file, "project") != ""
    ensures var h := HintValue(file, "project");
      FilePathTests(file, filePath, relative, cfg) <==>
        Contains(filePath, h) && TestRelativePath(Remainder(filePath, h), file, cfg.sep)
  {
  }

  /** With no hint and the directory-prefix flag, an empty directory component rejects;
      otherwise the component, a separator and the relative path are tested. */
  lemma DirPrefixRule(file: WatchedFile, filePath: string, relative: string, cfg: WatcherConfig)
    requires HintValue(file, "path") == "" && HintValue(file, "project") == "" && cfg.requireDirPrefix
    ensures var dir := DirComponent(filePath, relative, cfg.sep);
      FilePathTests(file, filePath, relative, cfg) <==>
        dir != "" && TestRelativePath(dir + [cfg.sep] + relative, file, cfg.sep)
  {
    JsLengthEmpty(DirComponent(filePath, relative, cfg.sep));
  }

  /** With no hint and no directory-prefix flag, the relative path is tested as given. */
  lemma DefaultRule(file: WatchedFile, filePath: string, relative: string, cfg: WatcherConfig)
    requires HintValue(file, "path") == "" && HintValue(file, "project") == "" && !cfg.requireDirPrefix
    ensures FilePathTests(file, filePath, relative, cfg) <==> TestRelativePath(relative, file, cfg.sep)
  {
  }

  /** The directory-prefix rule's loop: strip trailing separators one at a time. */
  method TrimTrailingSeparators(dirPath: string, sep: char) returns (r: string)
    ensures r == StripTrailing(dirPath, sep)
    ensures r == [] || r[|r| - 1] != sep
  {
    r := dirPath;
    while EndsWith(r, [sep])
      invariant StripTrailing(r, sep) == StripTrailing(dirPath, sep)
      decreases |r|
    {
      assert r[|r| - 1..] == [sep];
      r := r[..|r| - 1];
    }
  }
}
