# SL External Editor — a Dafny model of the extension's core

SL External Editor is a VSCode extension for editing Second Life scripts outside
the viewer. When the viewer opens a script for external editing, it writes the
script to a temp file named `sl_script_<name>_<id>.<ext>`. The extension watches
the temp folder and matches each temp file to a workspace file by name and by
hint comments. When a workspace file is saved, it writes the file back into the
temp file below a header of hint comments. It can run a preprocessor first and
remap the viewer's error log through it. It also downloads definition files,
named by a `cyrb53` hash.

The model covers that core, one module per source file or concern:

| module | file | models |
|---|---|---|
| `Wrappers`, `Text`, `Assoc`, `Json` | `wrappers.dfy`, `text.dfy`, `assoc.dfy`, `json.dfy` | JavaScript's `null`, string primitives (`trim`, `split`, `join`, `replaceAll` with its `$` patterns, `toLowerCase`, `length` in UTF-16 units, `String(n)`, `toString(16)`), objects used as insertion-ordered dictionaries, and parsed JSON values with their truthiness |
| `WatchedFiles` | `watched_files.dfy` | the language tables, `createFile`, and the hint parser of `tempWatcher.ts` |
| `Matcher` | `matcher.dfy` | `fileNameMatchesWatchedFile` and everything it calls |
| `Registry` | `registry.dfy` | the `TempWatcher` class: its registry of watched files, the directory scan, the lookup for a saved file, and the create and delete hooks |
| `SaveProcess` | `save_process.dfy` | writing a saved file back into its temp file, with the hint header |
| `WorkspaceFileTester` | `workspace_file_tester.dfy` | opening the single workspace file that matches a newly opened temp file |
| `Util` | `util.dfy` | `arrayMismatch` |
| `PreProcRunner` | `pre_proc_runner.dfy` | preprocessor configuration, command building, answer validation and decoding, and download URLs |
| `ErrorWatcher` | `error_watcher.dfy` | parsing the viewer's error log, remapping through the preprocessor, and the error messages shown |
| `DefsDownloader` | `defs_downloader.dfy` | `cyrb53`, cache file names, download gating, the `selene.toml` rewrite, and the install location |

Representation choices:
- A JavaScript object used as a dictionary is a list of key/value pairs with
  distinct keys, in insertion order: `Assoc.Put` replaces a key in place or
  appends a new one. That is JavaScript's own key order only for keys that are
  not integer-like. JavaScript lists integer-like keys (`"7"`, `"42"`) first, in
  ascending order. It treats `__proto__` specially, and it reports inherited names
  such as `toString` as present. The model does neither; "## Left out" names the
  members this affects.
- Where the source mutates an object in place, the model is imperative:
  - `TempWatcher` is a class whose methods update its fields;
  - the remap loop rewrites an `array`;
  - loops are methods proved equal to reference functions.
- Anything the extension asks of VSCode, the file system, the clock, a child
  process or `JSON.parse` is a parameter:
  - `find` (`workspace.findFiles`), `read` and `contents` (file reads, `None` where `readFile` rejects), `io` (each `fetch` and whether each cache `writeFile` succeeds) and `run` for I/O;
  - `now` for the clock;
  - `parse` for `JSON.parse`;
  - `lookup`, the temp-file lookup, asked once and again after the pause;
  - `langOf`, the extension-to-language lookup that `preProcRunner.ts` imports.

Where the code and its documentation differ, the model follows the code:
- A structured preprocessor answer is spread over the defaults. Its own `success`
  and `language` members therefore win over `success: true` and the detected
  language (`PreProcRunner.RunPreProcStructured`).
- `errorWatcher.ts` reads `log.codeFile.rootFile.path`, but the watcher stores
  `rootFile` as a path string. The model uses that string as the error's path.

## Model

| member | source | states |
|---|---|---|
| WatchedFiles.CommentFor | src/tempWatcher.ts:28-36 | the comment marker is two equal non-blank characters, and it is `--` exactly for SLua |
| WatchedFiles.ExtensionsFor | src/tempWatcher.ts:50-59 | every extension of a language is non-empty, lower case and dot-free; only "no language" has none |
| WatchedFiles.LanguageForExtTable | src/tempWatcher.ts:38-48 | `lua`/`luau` give SLua, `lsl` gives LSL, any other extension gives no language, all compared in lower case |
| WatchedFiles.LanguageForExtCaseInsensitive | src/tempWatcher.ts:38-48 | the language of an extension does not depend on its case |
| WatchedFiles.ExtensionsMapBack | src/tempWatcher.ts:38-59 | every extension listed for a language maps back to it, except `slua`, which is listed for SLua but maps to no language |
| WatchedFiles.CreateFile | src/tempWatcher.ts:145-165 | a new record keeps the file name and hint prefix, has no hints, root or includes, takes language and comment from its lower-cased extension, and has a lower-case script name |
| WatchedFiles.CreateFileExt | src/tempWatcher.ts:146 | the extension is the lower-cased text after the last dot, or the whole name when there is no dot |
| WatchedFiles.CreateFileScriptName | src/tempWatcher.ts:147-151 | for `sl_script_<name>_<id>` the script name is the lower-cased `<name>`, underscores included |
| WatchedFiles.ParseLine | src/tempWatcher.ts:185-198 | a hint line starts with the comment; its key is non-empty and has no spaces; its value is lower case and trimmed |
| WatchedFiles.ParseLineAfterPrefix | src/tempWatcher.ts:186-197 | after the comment and prefix, the first space-separated word is the key and the trimmed, lower-cased rest is the value; an empty key gives no hint |
| WatchedFiles.ParseLineNoPrefix | src/tempWatcher.ts:190 | a comment line without the hint prefix gives no hint |
| WatchedFiles.ParseHints | src/tempWatcher.ts:184-198 | the hints read from a file have distinct, non-empty, space-free keys and lower-case values |
| WatchedFiles.ParseHintsStep | src/tempWatcher.ts:185-197 | each line either leaves the hints alone or sets one key, in line order |
| WatchedFiles.ParseHintsLastWins | src/tempWatcher.ts:196 | a key gets the value of the last line that sets it |
| WatchedFiles.ParseHintsAbsent | src/tempWatcher.ts:195-197 | a key that no line sets is absent |
| WatchedFiles.ReadHints | src/tempWatcher.ts:180-198 | the loop over the file's lines gives exactly `ParseHints` of the text split on newlines |
| WatchedFiles.WithHints | src/tempWatcher.ts:199-202 | the file gets the hints; a non-empty `file` hint replaces the script name, otherwise the name stays; nothing else changes |
| WatchedFiles.WithHintsKeepsLower | src/tempWatcher.ts:196-202 | the script name stays lower case after the `file` hint |
| Matcher.FileExtensions | src/tempWatcher.ts:61-64 | the accepted extensions are the configured ones, lower-cased, in order |
| Matcher.Alternates | src/tempWatcher.ts:386-397 | the six spellings of a relative path: as given, then with the separator replaced by `""`, `" "`, `_`, `-` and `.` |
| Matcher.ScriptNames | src/tempWatcher.ts:340-345 | one candidate name per language extension, then the bare script name |
| Matcher.ScriptNamesAre | src/tempWatcher.ts:340-345 | a name is a candidate iff it is the script name, bare or followed by `.` and an extension of the file's language |
| Matcher.AlternatesAre | src/tempWatcher.ts:386-397 | the alternates are exactly the relative path and its five separator replacements |
| Matcher.TestRelativePathIff | src/tempWatcher.ts:335-384 | a relative path matches iff one of its spellings is one of the candidate names |
| Matcher.JoinedPathMatches | src/tempWatcher.ts:361-397 | a script named by joining directory parts with one of the joiners matches the path made of those parts |
| Matcher.RelativeWithoutSep | src/tempWatcher.ts:386-397 | a relative path without separators matches iff it is itself a candidate name |
| Matcher.UppercaseRelativeNeverMatches | src/tempWatcher.ts:335-384 | the relative path is never lower-cased, so one with a capital letter outside the separators never matches a lower-case script name |
| Matcher.Remainder | src/tempWatcher.ts:290-310 | the last piece of splitting the path at the hint, left to right without overlaps (`split(hint).pop()`): it ends the path and contains no hint; a path with the hint ends with the hint followed by it, and a path without the hint is its own remainder |
| Matcher.DirComponent | src/tempWatcher.ts:316-321 | the directory component has no separator and ends the text before the relative path, with trailing separators removed |
| Matcher.PathHintRule | src/tempWatcher.ts:290-299 | with a `path` hint, a file matches iff its path starts with the hint and the rest matches |
| Matcher.PathHintPrecedence | src/tempWatcher.ts:290-299 | with a `path` hint, neither the `project` hint nor the relative path nor the configuration matters |
| Matcher.ProjectHintRule | src/tempWatcher.ts:301-310 | with only a `project` hint, a file matches iff its path contains the hint and the part after its last occurrence matches |
| Matcher.DirPrefixRule | src/tempWatcher.ts:312-328 | without hints, but with the directory-prefix setting, the relative path must match with its parent directory in front, and that directory must be non-empty |
| Matcher.DefaultRule | src/tempWatcher.ts:330-332 | otherwise, the relative path itself must match |
| Matcher.FileNameMatches | src/tempWatcher.ts:252-283 | accepted iff the extension is configured, the path tests pass and the extension's language is the file's; each rejection names its reason |
| Matcher.TrimTrailingSeparators | src/tempWatcher.ts:318-320 | the `while (endsWith(sep))` loop removes exactly the trailing separators |
| Registry.Notify | src/tempWatcher.ts:211-213 | every registered handle is called once, in registration order, with the file |
| Registry.NotifyEach | src/tempWatcher.ts:211-213 | the handle loop gives exactly those calls |
| Registry.PutNamed | src/tempWatcher.ts:208 | storing a file under its own name keeps every entry keyed by its file name |
| Registry.RemoveNamed | src/tempWatcher.ts:172 | deleting keeps every entry keyed by its file name |
| Registry.Scripts | src/tempWatcher.ts:115-120 | the listed scripts are exactly the plain files whose names start with `sl_script_` |
| Registry.Initialise | src/tempWatcher.ts:126-130 | a file is left unwatched exactly when it has a comment and a hint prefix and its read rejects; reading hints keeps name, extension and language; a file without a hint prefix is stored as created |
| Registry.CreateFileExtIs | src/tempWatcher.ts:123-125 | a listed file is watched iff its lower-cased extension is a configured one |
| Registry.ScanAddKeys | src/tempWatcher.ts:115-136 | after the scan's first loop a name is watched iff it was, or it is a new listed script with an accepted extension whose read succeeds where its hints are read; old entries are untouched |
| Registry.RetireAllKeys | src/tempWatcher.ts:137-141 | the second loop drops exactly the watched names that are no longer listed, and keeps every other entry as it was |
| Registry.ScanAddNamed | src/tempWatcher.ts:115-136 | the scan keeps keys distinct and entries keyed by their file names |
| Registry.WatchOutcome | src/tempWatcher.ts:111-143 | after a scan the watched names are the listed scripts that were watched or have an accepted extension and, where their hints are read, a successful read; files watched and still listed are unchanged |
| Registry.FirstHit | src/tempWatcher.ts:229-249 | the index the lookup stops at lies in the registry |
| Registry.FirstHitSpec | src/tempWatcher.ts:229-249 | the lookup returns the first entry that includes the path, is rooted at it, or matches it, in insertion order; none when no entry does |
| Registry.FirstHitIs | src/tempWatcher.ts:229-249 | the first entry that hits, after none that do, is the one returned |
| Registry.FirstHitNone | src/tempWatcher.ts:249 | when no entry hits, there is no match |
| Registry.LookupPinsFirstAcceptor | src/tempWatcher.ts:232-246 | a returned entry that is not pinned is accepted by the matcher, with no earlier entry pinned or accepted |
| Registry.FindFirstHit | src/tempWatcher.ts:229-249 | the loop over the watched files finds exactly that first hit |
| Registry.TempWatcher.constructor | src/tempWatcher.ts:74-77 | a new watcher has its folder and nothing watched, hooked or notified |
| Registry.TempWatcher.FileCreated | src/tempWatcher.ts:207-214 | the file is stored under its name and every create handle is notified; the hooks are unchanged |
| Registry.TempWatcher.FileDeleted | src/tempWatcher.ts:167-173 | every delete handle is notified and the file's entry is removed |
| Registry.TempWatcher.ReadHintsAndNotify | src/tempWatcher.ts:175-205 | a rejected read stores and announces nothing; otherwise the file is stored with the hints parsed from its text, and create handles get that record |
| Registry.TempWatcher.Watch | src/tempWatcher.ts:111-143 | the new registry and notices are those of the scan's two loops, a rejected hint read leaving its file for the next scan |
| Registry.TempWatcher.AddListed | src/tempWatcher.ts:115-136 | the first loop returns the listed scripts and adds the new ones it admits |
| Registry.TempWatcher.RetireUnlisted | src/tempWatcher.ts:137-141 | the second loop deletes every watched file that is no longer listed |
| Registry.TempWatcher.RetireIfUnlisted | src/tempWatcher.ts:138-140 | one step of that loop |
| Registry.TempWatcher.GetMatchingTempFile | src/tempWatcher.ts:216-250 | on the lower-cased path, the first hit is returned; a matcher hit is re-rooted at the path and stored; no hit leaves the registry unchanged |
| Registry.TempWatcher.MarkMultiMatch | src/workspaceFileTester.ts:100 | the watched record of that name gets `multiMatch` set, and nothing else changes |
| Registry.TempWatcher.HookFileCreate | src/tempWatcher.ts:402-404 | the create handle is set under its name, replacing any old one |
| Registry.TempWatcher.UnhookFileCreate | src/tempWatcher.ts:405-411 | the handle is removed; the result says whether it existed |
| Registry.TempWatcher.HookFileDelete | src/tempWatcher.ts:412-414 | the delete handle is set under its name |
| Registry.TempWatcher.UnhookFileDelete | src/tempWatcher.ts:415-421 | the handle is removed; the result says whether it existed |
| Registry.UnhookKeepsOthers | src/tempWatcher.ts:405-421 | unhooking one name leaves every other handle in place |
| SaveProcess.HintLines | src/saveProcess.ts:29-35 | one `<comment> <prefix><key> <value>` line per hint, in hint order |
| SaveProcess.HeaderLines | src/saveProcess.ts:28-44 | no hints give no header; otherwise a marker, the hint lines, a marker and an empty line |
| SaveProcess.BuildPrefix | src/saveProcess.ts:28-44 | the push/unshift sequence builds exactly that header |
| SaveProcess.NoHintsNoHeader | src/saveProcess.ts:36-47 | without hints the temp file receives the saved text unchanged |
| SaveProcess.HeaderShape | src/saveProcess.ts:36-47 | with hints the temp file is the header block, a newline, then the text |
| SaveProcess.SaveDataToTempFile | src/saveProcess.ts:25-49 | a failed read of the saved file writes nothing; otherwise the write goes to the temp file's URI with the header and the saved file's text |
| SaveProcess.SourceFor | src/saveProcess.ts:14-23 | the saved file itself is read when it is the root; otherwise the root file is read |
| SaveProcess.OnSave | src/saveProcess.ts:5-19 | a save with no matching temp file writes nothing; otherwise the match is the watcher's first hit, pinned as its root as the lookup does, and the registry gets exactly that update, with its handles and notices unchanged; a failed read of the source writes nothing, else the write carries the header and the text of the root or include file |
| SaveProcess.SaveIncludeFile | src/saveProcess.ts:21-23 | saving an included file rewrites the temp file from its root file; a failed read of the root file writes nothing |
| SaveProcess.PinnedSaveUsesSavedFile | src/saveProcess.ts:14-15 | a file just re-rooted at the saved path is written from the saved file |
| SaveProcess.CommentsAreGood | src/tempWatcher.ts:28-36 | the comment markers of every language satisfy the round trip's conditions |
| SaveProcess.MarkerIsNoHint | src/saveProcess.ts:37-42 | the header marker line is not read back as a hint |
| SaveProcess.HintLineParses | src/saveProcess.ts:30-34 | a written hint line is read back as exactly its key and value |
| SaveProcess.HintBlockParses | src/saveProcess.ts:29-42 | a marker followed by the hint lines reads back as exactly the hints |
| SaveProcess.ParseHintsAppendNone | src/tempWatcher.ts:185-198 | lines that are not hints add nothing |
| SaveProcess.HeaderRoundTrip | src/saveProcess.ts:28-47 | reading hints back from a written temp file gives the file's hints, when the saved text itself has no hint lines |
| SaveProcess.HeaderLinesUnbroken | src/saveProcess.ts:28-44 | no header line contains a newline, so splitting the temp file finds them again |
| WorkspaceFileTester.FoundForMembers | src/workspaceFileTester.ts:25-35 | a file is a candidate iff the search for one of the language's extensions found it |
| WorkspaceFileTester.GetFilesMatchingTempFileLanguage | src/workspaceFileTester.ts:25-35 | the loop concatenates the `**/*.<ext>` searches, extension by extension |
| WorkspaceFileTester.NoLanguageNoCandidates | src/workspaceFileTester.ts:26 | a file of no language has no candidates |
| WorkspaceFileTester.Filter | src/workspaceFileTester.ts:15-22 | filtering never adds files |
| WorkspaceFileTester.FilterMembers | src/workspaceFileTester.ts:15-22 | a file is kept iff it is a candidate that passes the test |
| WorkspaceFileTester.FilterOne | src/workspaceFileTester.ts:15-22 | one file is kept exactly when it passes the test |
| WorkspaceFileTester.FilterAppend | src/workspaceFileTester.ts:15-22 | filtering keeps the order: the filter of two lists joined is their filters joined |
| WorkspaceFileTester.FilterCount | src/workspaceFileTester.ts:15-22 | filtering keeps the multiplicity: a file that passes occurs as often as among the candidates, any other not at all |
| WorkspaceFileTester.TestForFilesMatchingTemp | src/workspaceFileTester.ts:11-23 | the matches are the candidates the matcher accepts, with the full path as relative path |
| WorkspaceFileTester.MatchingHaveLanguageExtension | src/workspaceFileTester.ts:11-23 | every match has the temp file's language and was found by one of its extensions |
| WorkspaceFileTester.Classify | src/workspaceFileTester.ts:80-104 | one match opens it, none warns, more than one flags the temp file |
| WorkspaceFileTester.GetTempFileWithPause | src/workspaceFileTester.ts:116-125 | the lookup is asked a second time exactly when the first finds nothing, and the last answer is returned |
| WorkspaceFileTester.MatchOpened | src/workspaceFileTester.ts:79-104 | the outcome is the classification of the matching files |
| WorkspaceFileTester.NewFileOpen | src/workspaceFileTester.ts:72-106 | no temp file gives no outcome; otherwise the matches are classified; only multiple matches change the registry, by setting `multiMatch` on the temp file; the handles and notices stay as they were |
| WorkspaceFileTester.FilterSingle | src/workspaceFileTester.ts:80 | a single kept file is the only candidate that passes |
| WorkspaceFileTester.OpenedFileIsOnlyMatch | src/workspaceFileTester.ts:80-94 | the file opened is a candidate the matcher accepts, and no other candidate is |
| Util.ArrayMismatch | src/util.ts:1-10 | the loops report a mismatch iff the lengths differ or some element of one list is missing from the other |
| Util.NoMismatchIff | src/util.ts:1-10 | no mismatch iff the lengths agree and both lists have the same set of elements |
| Util.MismatchSymmetric | src/util.ts:1-10 | the comparison is symmetric |
| Util.NoMismatchWithSelf | src/util.ts:1-10 | a list never mismatches itself |
| Util.PermutationNoMismatch | src/util.ts:1-10 | reordering a list is not a mismatch |
| Util.MultiplicityIgnored | src/util.ts:1-10 | lists of the same length with the same elements but different counts do not mismatch |
| PreProcRunner.LanguageValue | src/preProcRunner.ts:150-168 | every language has a non-empty name |
| PreProcRunner.GetCmd | src/preProcRunner.ts:119-129 | a command is configured iff its setting is at least 5 characters long; it is that setting |
| PreProcRunner.GetCmdKeys | src/preProcRunner.ts:119-129 | LSL reads the LSL command; SLua and no language read the SLua command |
| PreProcRunner.GetLang | src/preProcRunner.ts:131-141 | a language is found iff the path has an extension that maps to one |
| PreProcRunner.IsPreProcConfiguredIff | src/preProcRunner.ts:18-23 | the preprocessor is configured iff the file has a language and that language's command is set |
| PreProcRunner.PrepCmd | src/preProcRunner.ts:99-117 | after filling `%script%`, `%lang%` and `%root%`, an output file is used iff `%out%` remains; it is `<tempdir>/<now>-output-<basename>`, and replaces every `%out%` as `replaceAll` does, `$` patterns in the path included |
| PreProcRunner.PrepCmdNoPlaceholders | src/preProcRunner.ts:99-117 | a command without placeholders runs as it is, with no output file |
| PreProcRunner.PrepCmdDefault | src/preProcRunner.ts:99-117 | for paths without `%` or `$`, the default template gives `"<bin>" --file "<script>" --lang "<lang>" --root "<root>"` and no output file |
| PreProcRunner.FillDefault | src/preProcRunner.ts:105-109 | for paths without `%` or `$`, the three placeholders of the default template are filled in one each |
| PreProcRunner.DollarsInScriptPath | src/preProcRunner.ts:106 | a script path holding `$$` is filled in with `$` instead, as `replaceAll` expands it |
| Text.JsReplaceAllLiteral | src/preProcRunner.ts:106-114 | a replacement without `$` is inserted literally, at every non-overlapping match |
| Text.JsReplaceAllOnce | src/preProcRunner.ts:106-114 | a single match is replaced by the replacement with its `$` patterns expanded against the match and the text around it |
| Text.ExpandDollarDollar | src/preProcRunner.ts:106-114 | `$$` in a replacement stands for one `$` |
| Text.ExpandMatch | src/preProcRunner.ts:106-114 | `$&` in a replacement stands for the matched text |
| PreProcRunner.GetPreparedCmd | src/preProcRunner.ts:89-97 | there is a command iff one is configured for the language, and it is that command prepared |
| PreProcRunner.IsStringArrayIff | src/preProcRunner.ts:191-196 | the check holds iff every item is a string |
| PreProcRunner.IsPreProcOutputIff | src/preProcRunner.ts:170-189 | an answer is valid iff it is an object with a string `text`, an all-string `files` array, and, when present, a string `hash` and a boolean `success` |
| PreProcRunner.WithSuccess | src/preProcRunner.ts:80-83 | the answer gains `success: true` unless it has its own, and keeps every other member |
| PreProcRunner.DecodePrefersOutputFile | src/preProcRunner.ts:70-79 | with an output file, its text is decoded and standard output is ignored |
| PreProcRunner.DecodeStructured | src/preProcRunner.ts:79-84 | a structured result comes from a valid answer, with a boolean `success` and a string `text` |
| PreProcRunner.DecodeFallback | src/preProcRunner.ts:84-86 | output that is not a valid answer is plain text |
| PreProcRunner.TextResponse | src/preProcRunner.ts:55-66 | a plain response has exactly `success`, `text`, empty `files` and `language` |
| PreProcRunner.RunPreProcRejects | src/preProcRunner.ts:35-47 | without a workspace folder, a language or a command, the run is refused |
| PreProcRunner.RunPreProcFailure | src/preProcRunner.ts:48-67 | a command that fails gives an unsuccessful, empty response |
| PreProcRunner.RunPreProcResponse | src/preProcRunner.ts:48-67 | every response has a boolean `success`, string `text`, array `files` and a `language` |
| PreProcRunner.RunPreProcStructured | src/preProcRunner.ts:55-62 | a structured answer keeps all its members over the defaults for `success` and `language` |
| PreProcRunner.DefaultDslUrl | src/preProcRunner.ts:294-305 | a download URL exists exactly for win32, darwin and linux, from the v0.2.2 release |
| PreProcRunner.GetPreProcUrl | src/preProcRunner.ts:285-292 | the URL comes with the default command template, on exactly those platforms |
| ErrorWatcher.DigitRun | src/errorWatcher.ts:40 | the leading run of decimal digits, and where it stops |
| ErrorWatcher.MatchErrorComplete | src/errorWatcher.ts:40-52 | every `:<digits>:<whitespace><message>` line matches, with the digits' value and the message |
| ErrorWatcher.MatchErrorSound | src/errorWatcher.ts:40-52 | every match has that shape |
| ErrorWatcher.CommentLineNeverMatches | src/errorWatcher.ts:46-47 | a `//` line never matches, so skipping it changes nothing |
| ErrorWatcher.LineErrors | src/errorWatcher.ts:44-53 | a line gives at most one error, exactly when its trimmed form matches, located at the root file |
| ErrorWatcher.LogErrors | src/errorWatcher.ts:39-54 | every error is a `[path, line]` pair at the code file's root |
| ErrorWatcher.LogErrorsAppend | src/errorWatcher.ts:42-54 | errors appear in line order |
| ErrorWatcher.NoMatchNoErrors | src/errorWatcher.ts:47-53 | a log without a matching line has no errors |
| ErrorWatcher.ParseLog | src/errorWatcher.ts:37-54 | the loop collects exactly those errors |
| ErrorWatcher.PopupOfParsed | src/errorWatcher.ts:104 | a parsed error is shown as `[<path>: <line>] <message>` |
| ErrorWatcher.PopupMessages | src/errorWatcher.ts:102-106 | one message per error, in order |
| ErrorWatcher.ErrorPopup | src/errorWatcher.ts:102-106 | the loop shows exactly those messages |
| ErrorWatcher.Lookup | src/errorWatcher.ts:83-84 | a remap target is a truthy entry of the line map; a missing map, a missing entry or a falsy one throws |
| ErrorWatcher.FirstUnmapped | src/errorWatcher.ts:82-86 | the loop stops at the first error without a target, after remapping all before it |
| ErrorWatcher.Remapped | src/errorWatcher.ts:82-86 | errors before that point get their targets, the rest are unchanged, messages are kept |
| ErrorWatcher.RemapErrors | src/errorWatcher.ts:82-86 | the in-place loop leaves the array as `Remapped`, and reports whether it got through |
| ErrorWatcher.ShownErrors | src/errorWatcher.ts:68-94 | the errors shown keep their number and messages |
| ErrorWatcher.MappedShowsEveryError | src/errorWatcher.ts:68-94 | every path shows every error once, in order, with at most a remap-failure notice first |
| ErrorWatcher.UnsuccessfulRemapKeepsErrors | src/errorWatcher.ts:80-94 | without a successful answer, errors are shown where the log put them |
| ErrorWatcher.DisplayMappedErrors | src/errorWatcher.ts:63-95 | the messages are those of `MappedMessages`, and the array ends in the shown state |
| ErrorWatcher.ChangeMessages | src/errorWatcher.ts:28-61 | no code file, no root or no errors show nothing |
| ErrorWatcher.ChangeShowsEveryError | src/errorWatcher.ts:28-95 | a log change shows one error message per logged error, in order, with at most one other message before them; without a preprocessor it shows the errors as logged |
| ErrorWatcher.Change | src/errorWatcher.ts:28-61 | a failed read of the log shows nothing; otherwise a log change shows exactly the messages of `ChangeMessages`: remapped through the preprocessor when it is configured for the code file, otherwise as logged |
| DefsDownloader.Xor32 | src/defsDownloader.ts:20-29 | `^` gives a 32-bit pattern |
| DefsDownloader.Imul | src/defsDownloader.ts:23-29 | `Math.imul` gives the low 32 bits of the product |
| DefsDownloader.HashFinish | src/defsDownloader.ts:26-29 | both mixed halves are 32-bit patterns |
| DefsDownloader.Combine | src/defsDownloader.ts:31 | the hash is below 2^53, with `h1` in the low 32 bits and 21 bits of `h2` above |
| DefsDownloader.Cyrb53 | src/defsDownloader.ts:19-32 | the hash of a string is a natural below 2^53 |
| DefsDownloader.Cyrb53Hash | src/defsDownloader.ts:19-32 | the imperative loop and mixing compute exactly `Cyrb53` |
| DefsDownloader.Cyrb53CodeUnits | src/defsDownloader.ts:21-22 | the hash depends only on the UTF-16 code units |
| DefsDownloader.UrlHash | src/defsDownloader.ts:38 | a hash renders as non-empty lower-case hexadecimal |
| DefsDownloader.CacheNameParts | src/defsDownloader.ts:34-40 | a cache file name splits at its first `_` into the URL's hash, which reads back as `cyrb53(url, 4)`, and the URL's basename |
| DefsDownloader.AsWrittenAlwaysRewrites | src/defsDownloader.ts:216-231 | as written, the stored hash is never found, so an unchanged file is downloaded and written again and again while the writes succeed |
| DefsDownloader.DownloadFile | src/defsDownloader.ts:205-235 | a non-`https://` URL or a failed fetch returns nothing and changes nothing; a returned URL is the one asked for; returning nothing writes no file, and changes nothing at all unless the write failed |
| DefsDownloader.DownloadFileWrites | src/defsDownloader.ts:216-231 | the new hash is stored iff the file was fetched and its hash changed or the download was forced; the URL is returned iff, besides, the write succeeds, and then the file holds the fetched text; a failed write leaves the new hash and no new file; otherwise nothing changes |
| DefsDownloader.FailedWriteSkipsLater | src/defsDownloader.ts:222-226 | after a failed write, a missing cache file stays missing, and the next unforced download of the same contents is skipped |
| DefsDownloader.SecondDownloadSkipped | src/defsDownloader.ts:216-231 | a second unforced download of unchanged contents writes nothing |
| DefsDownloader.DownloadGroup | src/defsDownloader.ts:173-203 | a group returns at most its URLs' count, each one of its `https://` URLs |
| DefsDownloader.GroupListsDownloads | src/defsDownloader.ts:179-182 | every URL whose download writes its file, on the store the earlier downloads left, is in the group's list |
| DefsDownloader.GroupNonEmpty | src/defsDownloader.ts:179-182 | the group's list is non-empty exactly when some download of the group writes its file |
| DefsDownloader.ForcedDownloadListed | src/defsDownloader.ts:179-182 | a forced download of a fetchable `https://` URL whose cache file can be written is always in the list |
| DefsDownloader.NonEmptyHasDownload | src/defsDownloader.ts:179-182 | a non-empty list means some download of the group wrote its file |
| DefsDownloader.NoHttpsNoDownload | src/defsDownloader.ts:209 | a group without `https://` URLs downloads nothing and changes nothing |
| DefsDownloader.AsWrittenSkipsToml | src/defsDownloader.ts:198-199 | as written, a `selene.toml` URL different from the library URL is never fetched |
| DefsDownloader.SeleneUrls | src/defsDownloader.ts:196-203 | the Selene download fetches the library URL and the `selene.toml` URL |
| DefsDownloader.Download | src/defsDownloader.ts:151-171 | disabled and unforced, nothing happens and every flag is false; otherwise the next download is due 172800 s later |
| DefsDownloader.DownloadFlags | src/defsDownloader.ts:166-170 | a flag is set exactly when some download of its group writes, each group on the store the one before left; so only when the group has an `https://` URL |
| DefsDownloader.NextDownloadAfterTwoDays | src/defsDownloader.ts:87-98 | after a download, another is needed exactly when more than two days have passed |
| DefsDownloader.SeleneTomlContent | src/defsDownloader.ts:375-405 | the workspace file when longer than 10 characters, else the cached one when it is, else the built-in default; nothing without a workspace |
| DefsDownloader.SeleneTomlContentLong | src/defsDownloader.ts:384-404 | with a workspace the content is always longer than 10 characters |
| DefsDownloader.SeleneStdNameKeeps | src/defsDownloader.ts:339-342 | a path without `.yml` is used as it is |
| DefsDownloader.RewriteLinesAt | src/defsDownloader.ts:349-358 | every line that sets `std` becomes `std = "<relative>"`, every other line is unchanged, and the line count is kept |
| DefsDownloader.RewriteStd | src/defsDownloader.ts:344-359 | the map gives those lines, and `replaced` is set iff some line set `std` |
| DefsDownloader.UpdateSeleneToml | src/defsDownloader.ts:344-365 | the text written is that of `UpdatedToml` |
| DefsDownloader.UpdatedTomlReplaces | src/defsDownloader.ts:344-365 | when a line set `std`, the file keeps its line count, with each such line replaced |
| DefsDownloader.UpdatedTomlPrepends | src/defsDownloader.ts:361-365 | when none did, exactly one `std` line is put before the old content; an empty file writes nothing |
| DefsDownloader.InstallPath | src/defsDownloader.ts:407-440 | no configured location installs nothing |
| DefsDownloader.InstallPathPlaces | src/defsDownloader.ts:412-437 | `global` uses the cache file, except for Selene, which is coerced to `root`; every other location is the URL's basename under the workspace folder |
| DefsDownloader.UnknownChoiceInstallsNothing | src/defsDownloader.ts:418-439 | an unknown location installs nothing |

## Findings

| source | as written | input that shows it | evidently intended | confidence | as-written member | corrected member |
|---|---|---|---|---|---|---|
| src/defsDownloader.ts:199 | the `toml` URL reads the `selene.download` setting again | any configuration whose `selene.downloadToml` URL differs from its `selene.download` URL: the toml file is never fetched | read the `selene.downloadToml` setting, as `getDownloadedSeleneToml` does at line 144 | not executed | DefsDownloader.SeleneUrlsAsWritten, DefsDownloader.AsWrittenSkipsToml | DefsDownloader.SeleneUrls |
| src/defsDownloader.ts:218-222 | the old hash is read under `cache.<urlHash>` but the new hash is stored under `<urlHash>` | any `https://` URL downloaded twice, unforced, with unchanged contents: the second download writes the file again and reports it downloaded | read and store the hash under the same key | not executed | DefsDownloader.DownloadFileAsWritten, DefsDownloader.AsWrittenAlwaysRewrites | DefsDownloader.DownloadFile, DefsDownloader.SecondDownloadSkipped |

`DefsDownloader.Download` uses the corrected members.

## Left out

- VSCode, the file system, timers, child processes, `fetch` and output channels:
  - their results are parameters;
  - log lines, information and warning messages, and the language-mismatch warning are not modelled;
  - only the error messages of `errorWatcher.ts` are modelled.
- Asynchrony: promises are modelled as completing in program order. In particular, `readHintsAndNotify` finishes within the scan, and the three groups of `download` run one after another.
- Floating point: `cyrb53` is modelled with exact integers, which the source keeps below 2^53.
- `parseInt` of a long digit string: the model keeps the exact value, while JavaScript loses precision past 2^53.
- Case folding: it is ASCII only. `toLowerCase` of other letters is not modelled.
- `Uri.parse(...).toString()` normalisation in `getFilePathForUrl` is not modelled. `Uri.joinPath` is written as `<dir>/<name>`.
- Callbacks are stored and notified as opaque handle tokens, because functions cannot be compared.
- The JavaScript object of a watched file is shared by reference. The model writes a changed field back into the registry by file name instead: `temp.multiMatch = true` in `newFileOpen` becomes `Registry.TempWatcher.MarkMultiMatch`.
- `JSON.stringify` and `JSON.parse` are parameters or abstract. The exception text of the `LINE REMAP FAIL` message is not modelled.
- The remap command line is not modelled: `getPreparedCMD(...)` followed by ` --remapLines "<lines>"`, where the `[cmd, out]` tuple is turned into a string. Only the command's output is modelled.
- `start`/`stop`/`dispose`/`Setup`/`Get` singletons, `setRunning`, `onDidChange` and the `isLog` filter of `ErrorWatcher.start` are not modelled. They are subscription plumbing, and `onDidChange`, `isLog` and `codeFile` are not part of the watcher they are called on.
- `src/extension.ts`, `src/commands.ts`, `src/config.ts` and `src/output.ts`: activation, commands, settings and output. Settings are parameters.
- `shouldRedownloadPreProc`, `downloadPreProc` and `queryLinesFromPreProc` are not modelled. They do file-system checks and downloads with no logic beyond the URL choice, which is modelled.
- `restrictToExistingLocalFiles` and the `getDownloaded*` helpers: file-system checks.
- `updateLuauLSPConfig` and `updateSnippets`: copies and configuration writes. They use `InstallPath` as modelled.
- `lspEnabled` and `seleneEnabled`: extension queries.
- `PreProcRunner.PrepCmdDefault`: it covers the default template with a given binary, for paths without `%` or `$`; `PreProcRunner.DollarsInScriptPath` shows what `$` does. The `%preproc%` substitution that `downloadPreProc` makes is not modelled.
- `PreProcRunner.FillDefault`: stated for paths without `%` or `$`, for the same reason.
- `WatchedFiles.ParseHintsLastWins`: a hint named `__proto__` is stored like any other key. In JavaScript, `hints["__proto__"] = value` with a string value changes nothing.
- `SaveProcess.HintLines`: the header lists the hints in the order they were set. JavaScript's `for…in` lists integer-like hint names first, in ascending order, so the lines differ when a hint is named like `2`.
- `Registry.Notify`: handles are called in registration order. JavaScript calls handles with integer-like names first, in ascending order.
- `Registry.TempWatcher.UnhookFileCreate`: an unregistered name gives `false`. In JavaScript an inherited name such as `toString` is found on the object, so it gives `true`.
- `Registry.TempWatcher.UnhookFileDelete`: the same as `UnhookFileCreate`.
- `Json.JNumber` holds an integer, so parsed JSON numbers are integers in the model. A remap answer that maps a line to a fractional number such as `2.5` cannot be represented; JavaScript would show it in the message as `2.5`.
- `DefsDownloader.Cyrb53`: `seed` is taken as a 32-bit pattern. Every caller passes 4.
- The line counter `lineNum` of `change` is never read, and it is not modelled.
