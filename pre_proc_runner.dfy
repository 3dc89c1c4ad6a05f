/** `src/preProcRunner.ts`: when the external preprocessor counts as configured, how
    its command line is built, how its answer is validated, and which result
    `runPreProc` hands back. Configuration values, the clock, the file system and the
    process are parameters. */
module PreProcRunner {
  import opened Wrappers
  import opened Text
  import opened WatchedFiles
  import opened Matcher
  import opened Json

  /** The string value of the `Language` enum. */
  function LanguageValue(lang: Language): (r: string)
    ensures r != ""
  {
    match lang
    case NoLanguage => "None"
    case LSL => "LSL"
    case SLua => "SLua"
  }

  /** The two preprocessor command settings; an unset setting reads as "". */
  datatype PreProcConfig = PreProcConfig(lslCommand: string, sluaCommand: string)

  /** The setting `getCmd` reads for a language. */
  function CommandSetting(lang: Language, cfg: PreProcConfig): string {
    if lang == LSL then cfg.lslCommand else cfg.sluaCommand
  }

  /** `getCmd`: the configured template, unless it is shorter than five UTF-16 units. */
  function GetCmd(lang: Language, cfg: PreProcConfig): (r: Option<string>)
    ensures r.Some? <==> JsLength(CommandSetting(lang, cfg)) >= 5
    ensures r.Some? ==> r.value == CommandSetting(lang, cfg)
  {
    var cmd := CommandSetting(lang, cfg);
    if JsLength(cmd) < 5 then None else Some(cmd)
  }

  /** `getLang`: the language of the path's extension, neither for an empty extension
      nor for an unknown one. `langOf` is the watcher's extension lookup. */
  function GetLang(path: string, langOf: string -> Language): (r: Option<Language>)
    ensures r.Some? <==> PathExt(path) != "" && langOf(PathExt(path)) != NoLanguage
    ensures r.Some? ==> r.value == langOf(PathExt(path))
  {
    var ext := PathExt(path);
    if ext == "" then None
    else
      var lang := langOf(ext);
      if lang == NoLanguage then None else Some(lang)
  }

  /** `isPreProcConfigured`. */
  predicate IsPreProcConfigured(path: string, langOf: string -> Language, cfg: PreProcConfig) {
    var lang := GetLang(path, langOf);
    lang.Some? && GetCmd(lang.value, cfg).Some?
  }

  /** Configured exactly when the path has a language whose command setting is long
      enough. */
  lemma IsPreProcConfiguredIff(path: string, langOf: string -> Language, cfg: PreProcConfig)
    ensures IsPreProcConfigured(path, langOf, cfg) <==>
      PathExt(path) != "" && langOf(PathExt(path)) != NoLanguage &&
      JsLength(CommandSetting(langOf(PathExt(path)), cfg)) >= 5
  {
  }

  /** Only LSL reads the LSL setting; every other language reads the SLua one. */
  lemma GetCmdKeys(cfg: PreProcConfig)
    ensures GetCmd(LSL, cfg) == (if JsLength(cfg.lslCommand) >= 5 then Some(cfg.lslCommand) else None)
    ensures GetCmd(SLua, cfg) == GetCmd(NoLanguage, cfg)
    ensures GetCmd(SLua, cfg) == (if JsLength(cfg.sluaCommand) >= 5 then Some(cfg.sluaCommand) else None)
  {
  }

  /** The command after the three fixed placeholders are filled in. */
  function FillPlaceholders(cmd: string, scriptPath: string, lang: Language, rootPath: string): string {
    var c1 := JsReplaceAll(cmd, "%script%", scriptPath);
    var c2 := JsReplaceAll(c1, "%lang%", ToLower(LanguageValue(lang)));
    JsReplaceAll(c2, "%root%", rootPath)
  }

  /** The output file `prepCmd` allocates: `<now>-output-<script basename>` in the temp
      directory. */
  function OutputPath(tempDir: string, now: int, scriptPath: string): string {
    JoinPath(tempDir, IntToString(now) + "-output-" + Basename(scriptPath))
  }

  /** `prepCmd`: the command line and, when the template still asks for one, the output
      file the preprocessor is to write. */
  function PrepCmd(cmd: string, scriptPath: string, lang: Language, rootPath: string, tempDir: string, now: int)
    : (r: (string, Option<string>))
    ensures var filled := FillPlaceholders(cmd, scriptPath, lang, rootPath);
      r.1.Some? <==> Contains(filled, "%out%")
    ensures var filled := FillPlaceholders(cmd, scriptPath, lang, rootPath);
      r.1.None? ==> r.0 == filled
    ensures r.1.Some? ==> r.1.value == OutputPath(tempDir, now, scriptPath)
    ensures r.1.Some? ==> r.0 == JsReplaceAll(FillPlaceholders(cmd, scriptPath, lang, rootPath), "%out%", r.1.value)
  {
    var filled := FillPlaceholders(cmd, scriptPath, lang, rootPath);
    if Contains(filled, "%out%") then
      var out := OutputPath(tempDir, now, scriptPath);
      (JsReplaceAll(filled, "%out%", out), Some(out))
    else (filled, None)
  }

  /** A template without placeholders is run as it is, and no output file is taken. */
  lemma PrepCmdNoPlaceholders(cmd: string, scriptPath: string, lang: Language, rootPath: string, tempDir: string, now: int)
    requires !Contains(cmd, "%script%") && !Contains(cmd, "%lang%") && !Contains(cmd, "%root%") && !Contains(cmd, "%out%")
    ensures PrepCmd(cmd, scriptPath, lang, rootPath, tempDir, now) == (cmd, None)
  {
    JsReplaceAllAbsent(cmd, "%script%", scriptPath);
    JsReplaceAllAbsent(cmd, "%lang%", ToLower(LanguageValue(lang)));
    JsReplaceAllAbsent(cmd, "%root%", rootPath);
  }

  /** The template the extension installs for the downloaded preprocessor, with
      `%preproc%` already replaced by the binary's path. */
  function DefaultTemplate(binary: string): string {
    "\"" + binary + "\" --file \"" + "%script%" + "\" --lang \"" + "%lang%" + "\" --root \"" + "%root%" + "\""
  }

  /** The command line that template is meant to give. */
  function DefaultCommand(binary: string, scriptPath: string, lang: Language, rootPath: string): string {
    "\"" + binary + "\" --file \"" + scriptPath + "\" --lang \"" + ToLower(LanguageValue(lang)) +
    "\" --root \"" + rootPath + "\""
  }

  /** The installed template gets the script, the lowercased language and the root, and
      asks for no output file, for paths without `%` or `$`. */
  lemma PrepCmdDefault(binary: string, scriptPath: string, lang: Language, rootPath: string,
                       tempDir: string, now: int)
    requires '%' !in binary && '%' !in scriptPath && '%' !in rootPath
    requires '$' !in scriptPath && '$' !in rootPath
    ensures PrepCmd(DefaultTemplate(binary), scriptPath, lang, rootPath, tempDir, now) ==
      (DefaultCommand(binary, scriptPath, lang, rootPath), None)
  {
    FillDefault(binary, scriptPath, lang, rootPath);
    var l := ToLower(LanguageValue(lang));
    assert '%' !in l;
    NotContainsMissingChar(DefaultCommand(binary, scriptPath, lang, rootPath), "%out%", 0);
  }

  lemma FillDefault(binary: string, scriptPath: string, lang: Language, rootPath: string)
    requires '%' !in binary && '%' !in scriptPath && '%' !in rootPath
    requires '$' !in scriptPath && '$' !in rootPath
    ensures FillPlaceholders(DefaultTemplate(binary), scriptPath, lang, rootPath) ==
      DefaultCommand(binary, scriptPath, lang, rootPath)
  {
    var l := ToLower(LanguageValue(lang));
    assert '%' !in l && '$' !in l;
    JsReplaceAllLiteral(DefaultTemplate(binary), "%script%", scriptPath);
    FillScript(binary, scriptPath);
    JsReplaceAllLiteral(AfterScript(binary, scriptPath), "%lang%", l);
    FillLang(binary, scriptPath, l);
    JsReplaceAllLiteral(AfterLang(binary, scriptPath, l), "%root%", rootPath);
    FillRoot(binary, scriptPath, l, rootPath);
  }

  /** `replaceAll` expands `$` patterns in the text it substitutes: a script path
      holding `$$` is written into the command with a single `$`. */
  lemma DollarsInScriptPath(a: string, x: string, y: string, lang: Language, rootPath: string)
    requires '%' !in a && '%' !in x && '%' !in y && '$' !in x && '$' !in y
    ensures FillPlaceholders(a + "%script%", x + "$$" + y, lang, rootPath) == a + x + "$" + y
  {
    assert a + "%script%" == a + "%script%" + "";
    NotContainsMissingChar("", "%script%", 0);
    JsReplaceAllOnce(a, "%script%", "", x + "$$" + y);
    ExpandDollarDollar(x, y, "%script%", a, "");
    var c1 := a + x + "$" + y;
    assert a + (x + "$" + y) + "" == c1;
    assert '%' !in c1;
    NotContainsMissingChar(c1, "%lang%", 0);
    JsReplaceAllAbsent(c1, "%lang%", ToLower(LanguageValue(lang)));
    NotContainsMissingChar(c1, "%root%", 0);
    JsReplaceAllAbsent(c1, "%root%", rootPath);
  }

  /** The default template after `%script%`, and after `%lang%`. */
  function AfterScript(binary: string, scriptPath: string): string {
    "\"" + binary + "\" --file \"" + scriptPath + "\" --lang \"" + "%lang%" + "\" --root \"" + "%root%" + "\""
  }

  function AfterLang(binary: string, scriptPath: string, l: string): string {
    "\"" + binary + "\" --file \"" + scriptPath + "\" --lang \"" + l + "\" --root \"" + "%root%" + "\""
  }

  lemma FillScript(binary: string, scriptPath: string)
    requires '%' !in binary
    ensures ReplaceAll(DefaultTemplate(binary), "%script%", scriptPath) == AfterScript(binary, scriptPath)
  {
    var a := "\"" + binary + "\" --file \"";
    var t := "\" --lang \"" + "%lang%" + "\" --root \"" + "%root%" + "\"";
    assert DefaultTemplate(binary) == a + "%script%" + t;
    assert AfterScript(binary, scriptPath) == a + scriptPath + t;
    NotContainsMissingChar(t, "%script%", 1);
    ReplaceAllOnce(a, "%script%", t, scriptPath);
  }

  lemma FillLang(binary: string, scriptPath: string, l: string)
    requires '%' !in binary && '%' !in scriptPath
    ensures ReplaceAll(AfterScript(binary, scriptPath), "%lang%", l) == AfterLang(binary, scriptPath, l)
  {
    var a := "\"" + binary + "\" --file \"" + scriptPath + "\" --lang \"";
    var t := "\" --root \"" + "%root%" + "\"";
    assert AfterScript(binary, scriptPath) == a + "%lang%" + t;
    assert AfterLang(binary, scriptPath, l) == a + l + t;
    NotContainsMissingChar(t, "%lang%", 1);
    ReplaceAllOnce(a, "%lang%", t, l);
  }

  lemma FillRoot(binary: string, scriptPath: string, l: string, rootPath: string)
    requires '%' !in binary && '%' !in scriptPath && '%' !in l
    ensures ReplaceAll(AfterLang(binary, scriptPath, l), "%root%", rootPath) ==
      "\"" + binary + "\" --file \"" + scriptPath + "\" --lang \"" + l + "\" --root \"" + rootPath + "\""
  {
    var a := "\"" + binary + "\" --file \"" + scriptPath + "\" --lang \"" + l + "\" --root \"";
    assert AfterLang(binary, scriptPath, l) == a + "%root%" + "\"";
    NotContainsMissingChar("\"", "%root%", 1);
    ReplaceAllOnce(a, "%root%", "\"", rootPath);
  }

  /** `getPreparedCMD`: no command when none is configured. */
  function GetPreparedCmd(scriptPath: string, lang: Language, rootPath: string, cfg: PreProcConfig,
                          tempDir: string, now: int): (r: Option<(string, Option<string>)>)
    ensures r.None? <==> GetCmd(lang, cfg).None?
    ensures r.Some? ==> r.value == PrepCmd(GetCmd(lang, cfg).value, scriptPath, lang, rootPath, tempDir, now)
  {
    match GetCmd(lang, cfg)
    case None => None
    case Some(raw) => Some(PrepCmd(raw, scriptPath, lang, rootPath, tempDir, now))
  }

  // ---------------------------------------------------------------------------
  // The preprocessor's answer

  /** `isStringArray`, checking the elements in order. */
  function IsStringArray(items: seq<Json>): (r: bool)
  {
    if items == [] then true
    else if !items[0].JString? then false
    else IsStringArray(items[1..])
  }

  /** The early-return scan accepts exactly the arrays of strings, the empty one too. */
  lemma {:induction false} IsStringArrayIff(items: seq<Json>)
    ensures IsStringArray(items) <==> forall i :: 0 <= i < |items| ==> items[i].JString?
    decreases |items|
  {
    if items != [] {
      IsStringArrayIff(items[1..]);
      assert forall i :: 1 <= i < |items| ==> items[1..][i - 1] == items[i];
    }
  }

  /** `isPreProcOutput`, check by check. A JSON `null` is an object to `typeof`,
      which the second check excludes. */
  predicate IsPreProcOutput(json: Json) {
    if json.JBool? || json.JNumber? || json.JString? then false
    else if json.JNull? then false
    else if json.JArray? then false
    else if "text" !in json.fields then false
    else if !json.fields["text"].JString? then false
    else if "files" !in json.fields then false
    else if !json.fields["files"].JArray? then false
    else if !IsStringArray(json.fields["files"].items) then false
    else if "hash" in json.fields && !json.fields["hash"].JString? then false
    else if "success" in json.fields && !json.fields["success"].JBool? then false
    else true
  }

  /** A valid answer is a non-null, non-array object whose `text` is a string and
      whose `files` are strings, and whose `hash` and `success`, where present, are a
      string and a boolean. */
  lemma IsPreProcOutputIff(json: Json)
    ensures IsPreProcOutput(json) <==>
      json.JObject? &&
      "text" in json.fields && json.fields["text"].JString? &&
      "files" in json.fields && json.fields["files"].JArray? &&
      (forall i :: 0 <= i < |json.fields["files"].items| ==> json.fields["files"].items[i].JString?) &&
      ("hash" in json.fields ==> json.fields["hash"].JString?) &&
      ("success" in json.fields ==> json.fields["success"].JBool?)
  {
    if json.JObject? && "files" in json.fields && json.fields["files"].JArray? {
      IsStringArrayIff(json.fields["files"].items);
    }
  }

  /** What `decodeResponse` resolves to: the raw text, or the validated object with
      `success: true` in front of its own members. */
  datatype Decoded = PlainText(text: string) | Structured(fields: map<string, Json>)

  /** `{ success: true, ...json }`: the answer's own `success` wins. */
  function WithSuccess(fields: map<string, Json>): (r: map<string, Json>)
    ensures r.Keys == fields.Keys + {"success"}
    ensures forall k :: k in fields ==> r[k] == fields[k]
    ensures "success" !in fields ==> r["success"] == JBool(true)
  {
    map["success" := JBool(true)] + fields
  }

  /** `decodeResponse`. `outFile` is whether `prepCmd` gave an output file, `fileText`
      what reading it gives (`None` when the read throws), `deleted` whether deleting
      it afterwards succeeds, and `parse` is `JSON.parse` (`None` when it throws). Every
      failure is caught and resolves to the text held at that moment. */
  function DecodeResponse(stdout: string, outFile: bool, fileText: Option<string>, deleted: bool,
                          parse: string -> Option<Json>): (r: Decoded)
  {
    if outFile && fileText.None? then PlainText(stdout)
    else
      var text := if outFile then fileText.value else stdout;
      if outFile && !deleted then PlainText(text)
      else match parse(text)
        case None => PlainText(text)
        case Some(json) => if IsPreProcOutput(json) then Structured(WithSuccess(json.fields)) else PlainText(text)
  }

  /** The output file, once read, is preferred over the standard output, for the
      structured result as for the fallback. */
  lemma DecodePrefersOutputFile(stdout: string, fileText: string, parse: string -> Option<Json>)
    ensures var r := DecodeResponse(stdout, true, Some(fileText), true, parse);
      r.PlainText? ==> r.text == fileText
    ensures var r := DecodeResponse(stdout, true, Some(fileText), true, parse);
      r.Structured? <==> parse(fileText).Some? && IsPreProcOutput(parse(fileText).value)
  {
  }

  /** A structured result holds every member of the validated answer and a boolean
      `success`. */
  lemma DecodeStructured(stdout: string, outFile: bool, fileText: Option<string>, deleted: bool,
                         parse: string -> Option<Json>)
    requires DecodeResponse(stdout, outFile, fileText, deleted, parse).Structured?
    ensures var text := if outFile then fileText.value else stdout;
      parse(text).Some? && IsPreProcOutput(parse(text).value) &&
      DecodeResponse(stdout, outFile, fileText, deleted, parse).fields == WithSuccess(parse(text).value.fields)
    ensures DecodeResponse(stdout, outFile, fileText, deleted, parse).fields["success"].JBool?
    ensures DecodeResponse(stdout, outFile, fileText, deleted, parse).fields["text"].JString?
  {
  }

  /** Text that does not parse, or parses into something invalid, comes back as it is. */
  lemma DecodeFallback(stdout: string, parse: string -> Option<Json>)
    requires parse(stdout).None? || !IsPreProcOutput(parse(stdout).value)
    ensures DecodeResponse(stdout, false, None, false, parse) == PlainText(stdout)
  {
  }

  /** What `runPreProc` gives: rejected before the command runs, or a response object. */
  datatype RunResult = Rejected(reason: string) | Response(fields: map<string, Json>)

  /** The response object for a plain-text answer. */
  function TextResponse(success: bool, text: string, lang: Language): (r: map<string, Json>)
    ensures r.Keys == {"success", "text", "files", "language"}
    ensures r["success"] == JBool(success) && r["text"] == JString(text) && r["files"] == JArray([])
    ensures r["language"] == JString(LanguageValue(lang))
  {
    map["success" := JBool(success), "text" := JString(text), "files" := JArray([]),
        "language" := JString(LanguageValue(lang))]
  }

  /** The environment `runPreProc` sees: the workspace root, the extension lookup, the
      settings, the temp directory, the clock, the process (`None` when it fails), and
      the output file's reading and deletion. */
  datatype RunEnv = RunEnv(
    workspaceRoot: Option<string>,
    langOf: string -> Language,
    cfg: PreProcConfig,
    tempDir: string,
    now: int,
    run: string -> Option<string>,
    fileText: Option<string>,
    deleted: bool,
    parse: string -> Option<Json>)

  /** `runPreProc`. */
  function RunPreProc(scriptPath: string, env: RunEnv): (r: RunResult)
  {
    if env.workspaceRoot.None? then Rejected("VSCode not open in folder")
    else match GetLang(scriptPath, env.langOf)
      case None => Rejected("Couldn't determine language as LSL or SLua")
      case Some(lang) =>
        match GetPreparedCmd(scriptPath, lang, env.workspaceRoot.value, env.cfg, env.tempDir, env.now)
        case None => Rejected("No preproc command configured")
        case Some(prepared) =>
          var (cmd, out) := prepared;
          if cmd == "" then Rejected("No preproc command configured")
          else match env.run(cmd)
            case None => Response(TextResponse(false, "", lang))
            case Some(stdout) =>
              match DecodeResponse(stdout, out.Some?, env.fileText, env.deleted, env.parse)
              case PlainText(text) => Response(TextResponse(true, text, lang))
              case Structured(fields) =>
                Response(map["success" := JBool(true), "language" := JString(LanguageValue(lang))] + fields)
  }

  /** Before anything runs, the call is rejected without a workspace folder, without a
      language, and without a configured command. */
  lemma RunPreProcRejects(scriptPath: string, env: RunEnv)
    ensures env.workspaceRoot.None? ==> RunPreProc(scriptPath, env).Rejected?
    ensures GetLang(scriptPath, env.langOf).None? ==> RunPreProc(scriptPath, env).Rejected?
    ensures !IsPreProcConfigured(scriptPath, env.langOf, env.cfg) ==> RunPreProc(scriptPath, env).Rejected?
  {
  }

  /** A failing process gives an unsuccessful, empty response. */
  lemma RunPreProcFailure(scriptPath: string, env: RunEnv)
    requires RunPreProc(scriptPath, env).Response?
    requires var lang := GetLang(scriptPath, env.langOf).value;
      env.run(PrepCmd(GetCmd(lang, env.cfg).value, scriptPath, lang, env.workspaceRoot.value, env.tempDir, env.now).0).None?
    ensures var lang := GetLang(scriptPath, env.langOf).value;
      RunPreProc(scriptPath, env).fields == TextResponse(false, "", lang)
  {
  }

  /** Every response has a boolean `success`, a string `text`, an array `files` and a
      `language`. */
  lemma RunPreProcResponse(scriptPath: string, env: RunEnv)
    requires RunPreProc(scriptPath, env).Response?
    ensures var f := RunPreProc(scriptPath, env).fields;
      "success" in f && f["success"].JBool? && "text" in f && f["text"].JString? &&
      "files" in f && f["files"].JArray? && "language" in f
  {
    var lang := GetLang(scriptPath, env.langOf).value;
    var prepared := GetPreparedCmd(scriptPath, lang, env.workspaceRoot.value, env.cfg, env.tempDir, env.now).value;
    var stdout := env.run(prepared.0);
    if stdout.Some? {
      var d := DecodeResponse(stdout.value, prepared.1.Some?, env.fileText, env.deleted, env.parse);
      if d.Structured? {
        DecodeStructured(stdout.value, prepared.1.Some?, env.fileText, env.deleted, env.parse);
        var text := if prepared.1.Some? then env.fileText.value else stdout.value;
        IsPreProcOutputIff(env.parse(text).value);
      }
    }
  }

  /** A structured answer's own members win over the defaults: its `success`, when it
      has one, and its `language`, when it has one, replace `true` and the detected
      language. */
  lemma RunPreProcStructured(scriptPath: string, env: RunEnv, lang: Language, stdout: string, answer: Json)
    requires env.workspaceRoot.Some? && GetLang(scriptPath, env.langOf) == Some(lang)
    requires GetPreparedCmd(scriptPath, lang, env.workspaceRoot.value, env.cfg, env.tempDir, env.now).Some?
    requires var prepared := GetPreparedCmd(scriptPath, lang, env.workspaceRoot.value, env.cfg, env.tempDir, env.now).value;
      prepared.0 != "" && env.run(prepared.0) == Some(stdout) &&
      (prepared.1.Some? ==> env.fileText.Some? && env.deleted) &&
      env.parse(if prepared.1.Some? then env.fileText.value else stdout) == Some(answer)
    requires IsPreProcOutput(answer)
    ensures RunPreProc(scriptPath, env).Response?
    ensures var f := RunPreProc(scriptPath, env).fields;
      f.Keys == answer.fields.Keys + {"success", "language"} &&
      (forall k :: k in answer.fields ==> f[k] == answer.fields[k]) &&
      ("success" !in answer.fields ==> f["success"] == JBool(true)) &&
      ("language" !in answer.fields ==> f["language"] == JString(LanguageValue(lang)))
  {
  }

  // ---------------------------------------------------------------------------
  // The downloadable preprocessor

  const PreProcTemplate: string := "\"%preproc%\" --file \"%script%\" --lang \"%lang%\" --root \"%root%\""

  /** `getDefaultDslUrl`, by `os.platform()`. */
  function DefaultDslUrl(platform: string): (r: Option<string>)
    ensures r.Some? <==> platform in {"win32", "darwin", "linux"}
    ensures r.Some? ==> StartsWith(r.value, "https://github.com/WolfGangS/DSL-PreProc/releases/download/v0.2.2/")
  {
    var base := "https://github.com/WolfGangS/DSL-PreProc/releases/download/v0.2.2/";
    if platform == "win32" then Some(base + "win_dsl_preproc.exe")
    else if platform == "darwin" then Some(base + "mac_dsl_preproc")
    else if platform == "linux" then Some(base + "dsl_preproc")
    else None
  }

  /** `getPreProcUrl`: the binary's address and the command template for it. */
  function GetPreProcUrl(platform: string): (r: Option<(string, string)>)
    ensures r.Some? <==> DefaultDslUrl(platform).Some?
    ensures r.Some? ==> r.value == (DefaultDslUrl(platform).value, PreProcTemplate)
  {
    match DefaultDslUrl(platform)
    case None => None
    case Some(url) => Some((url, PreProcTemplate))
  }
}
