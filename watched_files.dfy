/** The watched temp-file record of `src/tempWatcher.ts`, the language tables and the
    comment-hint parser that runs when a temp file first appears. */
module WatchedFiles {
  import opened Wrappers
  import opened Text
  import opened Assoc

  /** The script languages the extension distinguishes (`Language.None` is `NoLanguage`). */
  datatype Language = NoLanguage | LSL | SLua

  /** The line-comment marker of a language. */
  function CommentFor(lang: Language): (r: string)
    ensures |r| == 2 && r[0] == r[1] && !IsWhitespace(r[0])
    ensures lang == SLua <==> r == "--"
  {
    match lang
    case SLua => "--"
    case _ => "//"
  }

  /** The language of a file extension, ignoring case. */
  function LanguageForExt(fileExt: string): Language {
    var e := ToLower(fileExt);
    if e == "lua" || e == "luau" then SLua
    else if e == "lsl" then LSL
    else NoLanguage
  }

  /** The extensions (without a dot) searched for a language, in search order. */
  function ExtensionsFor(lang: Language): (r: seq<string>)
    ensures forall i :: 0 <= i < |r| ==> r[i] != "" && IsLower(r[i]) && '.' !in r[i]
    ensures lang == NoLanguage <==> r == []
  {
    match lang
    case SLua => ["luau", "slua", "lua"]
    case LSL => ["lsl"]
    case NoLanguage => []
  }

  lemma LanguageForExtCaseInsensitive(fileExt: string)
    ensures LanguageForExt(fileExt) == LanguageForExt(ToLower(fileExt))
  {
    ToLowerIdempotent(fileExt);
  }

  /** The table in words: "lua" and "luau" are SLua, "lsl" is LSL, whatever their case. */
  lemma LanguageForExtTable(fileExt: string)
    ensures LanguageForExt(fileExt) == SLua <==> ToLower(fileExt) in {"lua", "luau"}
    ensures LanguageForExt(fileExt) == LSL <==> ToLower(fileExt) == "lsl"
    ensures LanguageForExt(fileExt) == NoLanguage <==> ToLower(fileExt) !in {"lua", "luau", "lsl"}
  {
  }

  /** Every extension listed for a language maps back to it, except "slua". */
  lemma ExtensionsMapBack(lang: Language)
    ensures forall e :: e in ExtensionsFor(lang) && e != "slua" ==> LanguageForExt(e) == lang
    ensures "slua" in ExtensionsFor(SLua) && LanguageForExt("slua") == NoLanguage
  {
    assert ToLower("luau") == "luau" && ToLower("lua") == "lua" && ToLower("lsl") == "lsl";
    assert ToLower("slua") == "slua";
  }

  /** A temp script the client has written. `multiMatch` is the flag that the workspace
      tester sets; `includedFiles` is never filled by the code shown. */
  datatype WatchedFile = WatchedFile(
    ext: string,
    fileName: string,
    scriptName: string,
    hints: Dict<string>,
    language: Language,
    uri: string,
    comment: string,
    hintPrefix: string,
    includedFiles: seq<string>,
    rootFile: string,
    multiMatch: bool)

  /** `vscode.Uri.joinPath` on a directory and a plain file name. */
  function JoinPath(dir: string, name: string): string {
    dir + "/" + name
  }

  /** The `_`-separated pieces of a temp file name that form the script name: the
      first two (`sl`, `script`) and the last (the client's id) are dropped. */
  function ScriptParts(fileName: string): seq<string> {
    var parts := Split(fileName, "_");
    if |parts| >= 3 then parts[2..|parts| - 1] else []
  }

  /** `createFile`: the record for a temp file that the scan found. */
  function CreateFile(dir: string, fileName: string, hintPrefix: string): (r: WatchedFile)
    ensures r.fileName == fileName && r.hintPrefix == hintPrefix
    ensures r.hints == [] && r.rootFile == "" && r.includedFiles == [] && !r.multiMatch
    ensures r.language == LanguageForExt(r.ext) && r.comment == CommentFor(r.language)
    ensures IsLower(r.ext) && IsLower(r.scriptName)
  {
    var ext := ToLower(Last(Split(fileName, ".")));
    var scriptName := ToLower(Join(ScriptParts(fileName), "_"));
    ToLowerIdempotent(Last(Split(fileName, ".")));
    ToLowerIdempotent(Join(ScriptParts(fileName), "_"));
    var language := LanguageForExt(ext);
    WatchedFile(ext, fileName, scriptName, [], language, JoinPath(dir, fileName),
      CommentFor(language), hintPrefix, [], "", false)
  }

  /** The extension is the lowercased text after the last dot (the whole name when
      there is no dot). */
  lemma CreateFileExt(dir: string, fileName: string, hintPrefix: string)
    ensures exists x :: (CreateFile(dir, fileName, hintPrefix).ext == ToLower(x) && '.' !in x &&
      (if '.' in fileName then EndsWith(fileName, "." + x) else x == fileName))
  {
    var x := Last(Split(fileName, "."));
    SplitLastChar(fileName, '.');
    assert CreateFile(dir, fileName, hintPrefix).ext == ToLower(x);
  }

  /** A name of the client's form `sl_script_<name>_<id>` yields `<name>` lowercased,
      even when `<name>` contains underscores. */
  lemma CreateFileScriptName(dir: string, name: string, id: string, hintPrefix: string)
    requires '_' !in id
    ensures CreateFile(dir, "sl_script_" + name + "_" + id, hintPrefix).scriptName == ToLower(name)
  {
    var parts := TempNameParts(name, id);
    assert parts[2..|parts| - 1] == Split(name, "_");
    JoinSplit(name, "_");
  }

  /** `sl_script_<name>_<id>` splits on `_` into `sl`, `script`, the pieces of
      `<name>` and `<id>`. */
  lemma TempNameParts(name: string, id: string) returns (parts: seq<string>)
    requires '_' !in id
    ensures parts == ["sl", "script"] + Split(name, "_") + [id]
    ensures Split("sl_script_" + name + "_" + id, "_") == parts
  {
    var middle := Split(name, "_");
    parts := ["sl", "script"] + middle + [id];
    TempNameJoin(name, id);
    SplitPiecesAvoidChar(name, '_');
    forall k | 0 <= k < |parts| ensures '_' !in parts[k] {
      if 2 <= k < |parts| - 1 {
        assert parts[k] == middle[k - 2];
      }
    }
    SplitJoin(parts, '_');
  }

  lemma TempNameJoin(name: string, id: string)
    ensures Join(["sl", "script"] + Split(name, "_") + [id], "_") == "sl_script_" + name + "_" + id
  {
    JoinSplit(name, "_");
    JoinAround("sl", "script", Split(name, "_"), id, "_");
    TempNamePrefix();
  }

  /** The fixed front of a temp file name, piece by piece. */
  lemma TempNamePrefix()
    ensures "sl_script_" == "sl" + "_" + "script" + "_"
  {
  }

  // ---------------------------------------------------------------------------
  // The comment-hint parser

  /** What one line of a temp file contributes to the hints: the key (first
      space-delimited token) and the trimmed, lowercased rest, for a trimmed line that
      starts with the comment marker and then, after more optional whitespace, the hint
      prefix. Lines without a key yield nothing. */
  function ParseLine(line: string, comment: string, prefix: string): (r: Option<(string, string)>)
    ensures r.Some? ==> StartsWith(Trim(line), comment)
    ensures r.Some? ==> r.value.0 != "" && ' ' !in r.value.0 && !IsWhitespace(r.value.0[0])
    ensures r.Some? ==> IsLower(r.value.1) && Trim(r.value.1) == r.value.1
  {
    var t := Trim(line);
    if JsLength(t) < 1 || !StartsWith(t, comment) then None
    else
      var t2 := Trim(t[|comment|..]);
      if !StartsWith(t2, prefix) then None
      else
        var t3 := Trim(t2[|prefix|..]);
        var parts := Split(t3, " ");
        var key := parts[0];
        var value := ToLower(Trim(Join(parts[1..], " ")));
        if key == "" then None
        else
          KeyOfHint(t3);
          LowerTrimmed(Trim(Join(parts[1..], " ")));
          Some((key, value))
  }

  /** `ParseLine` on a line that passes the comment and prefix checks: the result is
      decided by the key and value cut from what follows the prefix. */
  lemma ParseLineAfterPrefix(line: string, comment: string, prefix: string, t3: string)
    requires Trim(line) != [] && StartsWith(Trim(line), comment)
    requires StartsWith(Trim(Trim(line)[|comment|..]), prefix)
    requires t3 == Trim(Trim(Trim(line)[|comment|..])[|prefix|..])
    ensures Split(t3, " ")[0] == "" ==> ParseLine(line, comment, prefix) == None
    ensures Split(t3, " ")[0] != "" ==>
      ParseLine(line, comment, prefix) == Some((Split(t3, " ")[0], ToLower(Trim(Join(Split(t3, " ")[1..], " ")))))
  {
    JsLengthEmpty(Trim(line));
  }

  /** `ParseLine` on a line whose text after the comment marker lacks the prefix. */
  lemma ParseLineNoPrefix(line: string, comment: string, prefix: string)
    requires Trim(line) != [] && StartsWith(Trim(line), comment)
    requires !StartsWith(Trim(Trim(line)[|comment|..]), prefix)
    ensures ParseLine(line, comment, prefix) == None
  {
    JsLengthEmpty(Trim(line));
  }

  /** The first space-delimited token of a trimmed string has no space and, unless
      empty, starts with a character that is not whitespace. */
  lemma KeyOfHint(t: string)
    requires t == [] || !IsWhitespace(t[0])
    ensures ' ' !in Split(t, " ")[0]
    ensures Split(t, " ")[0] == [] || !IsWhitespace(Split(t, " ")[0][0])
  {
    SplitPiecesAvoidChar(t, ' ');
    var key := BeforeFirst(t, " ");
    assert key == Split(t, " ")[0];
    assert key == t[..|key|];
    if key != [] {
      assert key[0] == t[0];
    }
  }

  /** Lowercasing a trimmed string leaves it trimmed and lowercase. */
  lemma LowerTrimmed(s: string)
    requires s == [] || (!IsWhitespace(s[0]) && !IsWhitespace(s[|s| - 1]))
    ensures IsLower(ToLower(s)) && Trim(ToLower(s)) == ToLower(s)
  {
    ToLowerIdempotent(s);
    if s != [] {
      LowerCharWhitespace(s[0]);
      LowerCharWhitespace(s[|s| - 1]);
    }
    TrimNoop(ToLower(s));
  }

  /** The hints of a sequence of lines: each parsed line assigns its key in turn. */
  function ParseHints(lines: seq<string>, comment: string, prefix: string): (r: Dict<string>)
    ensures DistinctKeys(r)
    ensures forall i :: 0 <= i < |r| ==> r[i].0 != "" && ' ' !in r[i].0 && IsLower(r[i].1)
  {
    if lines == [] then []
    else
      var h := ParseHints(lines[..|lines| - 1], comment, prefix);
      match ParseLine(Last(lines), comment, prefix)
      case None => h
      case Some(kv) => PutHint(h, kv.0, kv.1)
  }

  /** `Put` on hints keeps every key non-empty and space-free and every value lowercase. */
  function PutHint(h: Dict<string>, k: string, v: string): (r: Dict<string>)
    requires DistinctKeys(h)
    requires forall i :: 0 <= i < |h| ==> h[i].0 != "" && ' ' !in h[i].0 && IsLower(h[i].1)
    requires k != "" && ' ' !in k && IsLower(v)
    ensures r == Put(h, k, v)
    ensures DistinctKeys(r)
    ensures forall i :: 0 <= i < |r| ==> r[i].0 != "" && ' ' !in r[i].0 && IsLower(r[i].1)
    decreases |h|
  {
    if h == [] then [(k, v)]
    else if h[0].0 == k then
      var r := [(k, v)] + h[1..];
      assert r[1..] == h[1..];
      r
    else
      var r := [h[0]] + PutHint(h[1..], k, v);
      assert r[1..] == PutHint(h[1..], k, v);
      r
  }

  /** One step of `ParseHints`: the last line assigns its key, if it has one. */
  lemma ParseHintsStep(lines: seq<string>, comment: string, prefix: string)
    requires lines != []
    ensures var h := ParseHints(lines[..|lines| - 1], comment, prefix);
      var pl := ParseLine(lines[|lines| - 1], comment, prefix);
      ParseHints(lines, comment, prefix) == if pl.None? then h else Put(h, pl.value.0, pl.value.1)
  {
  }

  /** A hint line with no later line for the same key decides that key's value. */
  lemma ParseHintsLastWins(lines: seq<string>, comment: string, prefix: string, i: nat, k: string, v: string)
    requires i < |lines| && ParseLine(lines[i], comment, prefix) == Some((k, v))
    requires NoHintFor(lines[i + 1..], comment, prefix, k)
    ensures Get(ParseHints(lines, comment, prefix), k) == Some(v)
  {
    var parse := Parser(comment, prefix);
    var later := lines[i + 1..];
    forall j | 0 <= j < |later| ensures parse(later[j]).None? || parse(later[j]).value.0 != k {
    }
    AssignedLastWins(lines, parse, i, k, v);
    ParseHintsAssigned(lines, comment, prefix);
  }

  /** The line parser of a comment marker and hint prefix. */
  function Parser(comment: string, prefix: string): string -> Option<(string, string)> {
    line => ParseLine(line, comment, prefix)
  }

  /** One assignment of `ParseHints`: a parsed line's key gets its value. */
  function Step(h: Dict<string>, pl: Option<(string, string)>): Dict<string> {
    if pl.None? then h else Put(h, pl.value.0, pl.value.1)
  }

  /** The assignments of `ParseHints`, for any line parser. */
  function Assigned(lines: seq<string>, parse: string -> Option<(string, string)>): Dict<string> {
    if lines == [] then [] else Step(Assigned(lines[..|lines| - 1], parse), parse(lines[|lines| - 1]))
  }

  lemma {:induction false} ParseHintsAssigned(lines: seq<string>, comment: string, prefix: string)
    ensures ParseHints(lines, comment, prefix) == Assigned(lines, Parser(comment, prefix))
    decreases |lines|
  {
    if lines != [] {
      ParseHintsAssigned(lines[..|lines| - 1], comment, prefix);
      ParseHintsStep(lines, comment, prefix);
    }
  }

  lemma {:induction false} AssignedLastWins(lines: seq<string>, parse: string -> Option<(string, string)>,
                                            i: nat, k: string, v: string)
    requires i < |lines| && parse(lines[i]) == Some((k, v))
    requires forall j :: i < j < |lines| ==> parse(lines[j]).None? || parse(lines[j]).value.0 != k
    ensures Get(Assigned(lines, parse), k) == Some(v)
    decreases |lines|
  {
    var n := |lines| - 1;
    var front := lines[..n];
    if i < n {
      assert front[i] == lines[i];
      forall j | i < j < |front| ensures parse(front[j]).None? || parse(front[j]).value.0 != k {
        assert front[j] == lines[j];
      }
      AssignedLastWins(front, parse, i, k, v);
    }
  }

  /** No line of `lines` parses to a hint with key `k`. */
  predicate NoHintFor(lines: seq<string>, comment: string, prefix: string, k: string) {
    forall j :: 0 <= j < |lines| ==>
      ParseLine(lines[j], comment, prefix).None? || ParseLine(lines[j], comment, prefix).value.0 != k
  }

  lemma NoHintForFront(lines: seq<string>, comment: string, prefix: string, k: string)
    requires lines != [] && NoHintFor(lines, comment, prefix, k)
    ensures NoHintFor(lines[..|lines| - 1], comment, prefix, k)
    ensures var pl := ParseLine(lines[|lines| - 1], comment, prefix); pl.None? || pl.value.0 != k
  {
    var front := lines[..|lines| - 1];
    forall j | 0 <= j < |front|
      ensures ParseLine(front[j], comment, prefix).None? || ParseLine(front[j], comment, prefix).value.0 != k
    {
      assert front[j] == lines[j];
    }
  }

  /** A key that no line parses to is absent from the hints. */
  lemma {:induction false} ParseHintsAbsent(lines: seq<string>, comment: string, prefix: string, k: string)
    requires NoHintFor(lines, comment, prefix, k)
    ensures Get(ParseHints(lines, comment, prefix), k) == None
    decreases |lines|
  {
    if lines != [] {
      var front := lines[..|lines| - 1];
      NoHintForFront(lines, comment, prefix, k);
      ParseHintsAbsent(front, comment, prefix, k);
      ParseHintsStep(lines, comment, prefix);
    }
  }

  /** The hint loop of `readHintsAndNotify` over the decoded text of a temp file. */
  method ReadHints(text: string, comment: string, prefix: string) returns (hints: Dict<string>)
    ensures hints == ParseHints(Split(text, "\n"), comment, prefix)
  {
    var lines := Split(text, "\n");
    hints := [];
    var i := 0;
    while i < |lines|
      invariant 0 <= i <= |lines|
      invariant hints == ParseHints(lines[..i], comment, prefix)
    {
      assert lines[..i + 1][..i] == lines[..i];
      assert Last(lines[..i + 1]) == lines[i];
      var parsed := ParseLine(lines[i], comment, prefix);
      if parsed.Some? {
        hints := Put(hints, parsed.value.0, parsed.value.1);
      }
      i := i + 1;
    }
    assert lines[..|lines|] == lines;
  }

  /** The record after its hints are read: a non-empty `file` hint renames the script. */
  function WithHints(file: WatchedFile, hints: Dict<string>): (r: WatchedFile)
    ensures r.hints == hints
    ensures r == file.(hints := r.hints, scriptName := r.scriptName)
    ensures match Get(hints, "file")
      case Some(name) => name != "" ==> r.scriptName == name
      case None => r.scriptName == file.scriptName
    ensures Get(hints, "file") == Some("") ==> r.scriptName == file.scriptName
  {
    var name := Get(hints, "file").GetOr("");
    file.(hints := hints, scriptName := if name != "" then name else file.scriptName)
  }

  /** Script names stay lowercase once parsed hints are applied. */
  lemma WithHintsKeepsLower(file: WatchedFile, lines: seq<string>, comment: string, prefix: string)
    requires IsLower(file.scriptName)
    ensures IsLower(WithHints(file, ParseHints(lines, comment, prefix)).scriptName)
  {
    var h := ParseHints(lines, comment, prefix);
    if Get(h, "file").Some? {
      var i :| 0 <= i < |h| && h[i].0 == "file";
      GetAt(h, i);
    }
  }
}
