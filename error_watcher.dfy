/** `src/errorWatcher.ts`: when the viewer's log for a temp script changes, the
    `:<line>: <message>` lines are collected as errors against the script's root file,
    optionally remapped through the preprocessor, and shown one message each. */
module ErrorWatcher {
  import opened Wrappers
  import opened Text
  import opened WatchedFiles
  import opened Json
  import PreProcRunner

  // ---------------------------------------------------------------------------
  // One log line

  /** The line has none of the characters at which the regular expression's `.` and
      `$` stop. */
  predicate NoLineTerminator(s: string) {
    forall i :: 0 <= i < |s| ==> !IsLineTerminator(s[i])
  }

  /** The length of the run of decimal digits at the start of `s`. */
  function DigitRun(s: string): (n: nat)
    ensures n <= |s|
    ensures forall i :: 0 <= i < n ==> IsDigit(s[i])
    ensures n < |s| ==> !IsDigit(s[n])
  {
    if s != [] && IsDigit(s[0]) then 1 + DigitRun(s[1..]) else 0
  }

  /** `line.match(/^:([0-9]+):\s(.*)$/)`, giving `parseInt` of the first group and the
      second group. */
  function MatchError(t: string): Option<(nat, string)> {
    if |t| < 1 || t[0] != ':' then None
    else
      var n := DigitRun(t[1..]);
      var rest := t[1 + n..];
      if n == 0 || |rest| < 2 || rest[0] != ':' || !IsWhitespace(rest[1]) || !NoLineTerminator(rest[2..]) then None
      else Some((DigitsValue(t[1..1 + n]), rest[2..]))
  }

  /** The shape the regular expression describes: a colon, decimal digits, a colon, one
      whitespace character, and a message on one line. */
  predicate ErrorLineShape(t: string, digits: string, w: char, msg: string) {
    |digits| > 0 && (forall i :: 0 <= i < |digits| ==> IsDigit(digits[i])) &&
    IsWhitespace(w) && NoLineTerminator(msg) && t == ":" + digits + ":" + [w] + msg
  }

  /** Every line of that shape matches, with its number and message. */
  lemma MatchErrorComplete(t: string, digits: string, w: char, msg: string)
    requires ErrorLineShape(t, digits, w, msg)
    ensures MatchError(t) == Some((DigitsValue(digits), msg))
  {
    var s := t[1..];
    assert s == digits + ":" + [w] + msg;
    DigitRunOf(digits, ":" + [w] + msg);
    assert t[1..1 + |digits|] == digits;
    assert t[1 + |digits|..] == ":" + [w] + msg;
  }

  lemma {:induction false} DigitRunOf(digits: string, rest: string)
    requires forall i :: 0 <= i < |digits| ==> IsDigit(digits[i])
    requires rest != [] && !IsDigit(rest[0])
    ensures DigitRun(digits + rest) == |digits|
    decreases |digits|
  {
    if digits == [] {
      assert digits + rest == rest;
    } else {
      assert (digits + rest)[1..] == digits[1..] + rest;
      assert (digits + rest)[0] == digits[0];
      DigitRunOf(digits[1..], rest);
    }
  }

  /** Every match has that shape. */
  lemma MatchErrorSound(t: string) returns (digits: string, w: char)
    requires MatchError(t).Some?
    ensures ErrorLineShape(t, digits, w, MatchError(t).value.1)
    ensures MatchError(t).value.0 == DigitsValue(digits)
  {
    var n := DigitRun(t[1..]);
    digits := t[1..1 + n];
    var rest := t[1 + n..];
    w := rest[1];
    assert t == ":" + digits + ":" + [w] + rest[2..];
  }

  /** A comment line never matches, so skipping it changes nothing. */
  lemma CommentLineNeverMatches(t: string)
    requires StartsWith(t, "//")
    ensures MatchError(t).None?
  {
    assert t[0] == '/';
  }

  // ---------------------------------------------------------------------------
  // The errors of a log

  /** `FileError`: a location (a `[path, line]` pair as parsed; any JSON value once
      remapped) and a message. */
  datatype FileError = FileError(loc: Json, message: string)

  /** The shape the parser gives a location. */
  predicate WellTyped(e: FileError) {
    e.loc.JArray? && |e.loc.items| == 2 && e.loc.items[0].JString? && e.loc.items[1].JNumber?
  }

  /** The error line of a parsed error. */
  function LineOf(e: FileError): int
    requires WellTyped(e)
  {
    e.loc.items[1].n
  }

  /** The errors one line contributes: none for a blank or `//` line or a line that
      does not match. */
  function LineErrors(line: string, rootPath: string): (r: seq<FileError>)
    ensures |r| <= 1
    ensures forall i :: 0 <= i < |r| ==> WellTyped(r[i]) && r[i].loc.items[0] == JString(rootPath)
    ensures r != [] <==> MatchError(Trim(line)).Some?
  {
    var t := Trim(line);
    if JsLength(t) == 0 then (JsLengthEmpty(t); [])
    else if StartsWith(t, "//") then (CommentLineNeverMatches(t); [])
    else match MatchError(t)
      case None => []
      case Some(m) => [FileError(JArray([JString(rootPath), JNumber(m.0)]), m.1)]
  }

  /** The errors of a log's lines, in line order. */
  function LogErrors(lines: seq<string>, rootPath: string): (r: seq<FileError>)
    ensures forall i :: 0 <= i < |r| ==> WellTyped(r[i]) && r[i].loc.items[0] == JString(rootPath)
  {
    var perLine := LineParser(rootPath);
    assert forall line :: AtRoot(perLine(line), rootPath) by {
      forall line ensures AtRoot(perLine(line), rootPath) {
        assert perLine(line) == LineErrors(line, rootPath);
      }
    }
    CollectAt(lines, perLine, rootPath);
    Collect(lines, perLine)
  }

  /** The per-line step of the parse. */
  function LineParser(rootPath: string): string -> seq<FileError> {
    line => LineErrors(line, rootPath)
  }

  /** The errors of each line in turn, for any per-line parse. */
  function Collect(lines: seq<string>, perLine: string -> seq<FileError>): seq<FileError> {
    if lines == [] then [] else Collect(lines[..|lines| - 1], perLine) + perLine(lines[|lines| - 1])
  }

  /** Every error is a `[path, line]` location at `rootPath`. */
  predicate AtRoot(r: seq<FileError>, rootPath: string) {
    forall i :: 0 <= i < |r| ==> WellTyped(r[i]) && r[i].loc.items[0] == JString(rootPath)
  }

  lemma {:induction false} CollectAt(lines: seq<string>, perLine: string -> seq<FileError>, rootPath: string)
    requires forall line :: AtRoot(perLine(line), rootPath)
    ensures AtRoot(Collect(lines, perLine), rootPath)
    decreases |lines|
  {
    if lines != [] {
      var front := Collect(lines[..|lines| - 1], perLine);
      var last := perLine(lines[|lines| - 1]);
      CollectAt(lines[..|lines| - 1], perLine, rootPath);
      assert AtRoot(last, rootPath);
      assert forall i :: |front| <= i < |front + last| ==> (front + last)[i] == last[i - |front|];
    }
  }

  lemma {:induction false} CollectAppend(a: seq<string>, b: seq<string>, perLine: string -> seq<FileError>)
    ensures Collect(a + b, perLine) == Collect(a, perLine) + Collect(b, perLine)
    decreases |b|
  {
    if b == [] {
      assert a + b == a;
    } else {
      var front := b[..|b| - 1];
      assert (a + b)[..|a + b| - 1] == a + front;
      assert (a + b)[|a + b| - 1] == b[|b| - 1];
      CollectAppend(a, front, perLine);
    }
  }

  lemma {:induction false} CollectNone(lines: seq<string>, perLine: string -> seq<FileError>)
    requires forall i :: 0 <= i < |lines| ==> perLine(lines[i]) == []
    ensures Collect(lines, perLine) == []
    decreases |lines|
  {
    if lines != [] {
      var front := lines[..|lines| - 1];
      assert forall i :: 0 <= i < |front| ==> front[i] == lines[i];
      CollectNone(front, perLine);
    }
  }

  /** The errors of two stretches of log are those of the first, then those of the
      second. */
  lemma LogErrorsAppend(a: seq<string>, b: seq<string>, rootPath: string)
    ensures LogErrors(a + b, rootPath) == LogErrors(a, rootPath) + LogErrors(b, rootPath)
  {
    CollectAppend(a, b, LineParser(rootPath));
  }

  /** A log with no matching line has no errors. */
  lemma NoMatchNoErrors(lines: seq<string>, rootPath: string)
    requires forall i :: 0 <= i < |lines| ==> MatchError(Trim(lines[i])).None?
    ensures LogErrors(lines, rootPath) == []
  {
    var perLine := LineParser(rootPath);
    forall i | 0 <= i < |lines| ensures perLine(lines[i]) == [] {
      assert LineErrors(lines[i], rootPath) == [];
    }
    CollectNone(lines, perLine);
  }

  /** The loop of `change`: each line is trimmed, skipped when blank or a comment, and
      pushed as an error when it matches. */
  method ParseLog(lines: seq<string>, rootPath: string) returns (errors: seq<FileError>)
    ensures errors == LogErrors(lines, rootPath)
  {
    ghost var perLine := LineParser(rootPath);
    errors := [];
    for i := 0 to |lines|
      invariant errors == Collect(lines[..i], perLine)
    {
      var line := lines[i];
      assert lines[..i + 1][..i] == lines[..i];
      assert Collect(lines[..i + 1], perLine) == errors + LineErrors(line, rootPath);
      var trim := Trim(line);
      if JsLength(trim) == 0 {
        JsLengthEmpty(trim);
        continue;
      }
      if StartsWith(trim, "//") {
        CommentLineNeverMatches(trim);
        continue;
      }
      var m := MatchError(trim);
      if m.Some? {
        errors := errors + [FileError(JArray([JString(rootPath), JNumber(m.value.0)]), m.value.1)];
      }
    }
    assert lines[..|lines|] == lines;
  }

  // ---------------------------------------------------------------------------
  // Showing errors

  /** What the user is shown: one error message, or the notice that remapping failed
      (whose exception text is not modelled). */
  datatype Message = ErrorMessage(text: string) | RemapFailed

  /** `[${file[0]}: ${file[1]}] ${error}` */
  function PopupText(e: FileError): string {
    "[" + RenderOpt(Index(e.loc, 0)) + ": " + RenderOpt(Index(e.loc, 1)) + "] " + e.message
  }

  /** A parsed error is shown with its root path and line number. */
  lemma PopupOfParsed(rootPath: string, line: nat, msg: string)
    ensures PopupText(FileError(JArray([JString(rootPath), JNumber(line)]), msg)) ==
      "[" + rootPath + ": " + NatToString(line) + "] " + msg
  {
  }

  function PopupMessages(errors: seq<FileError>): (r: seq<Message>)
    ensures |r| == |errors|
    ensures forall i :: 0 <= i < |errors| ==> r[i] == ErrorMessage(PopupText(errors[i]))
  {
    seq(|errors|, i requires 0 <= i < |errors| => ErrorMessage(PopupText(errors[i])))
  }

  /** `errorPopup`: one message per error, in order. */
  method ErrorPopup(errors: seq<FileError>) returns (shown: seq<Message>)
    ensures shown == PopupMessages(errors)
  {
    shown := [];
    for i := 0 to |errors|
      invariant shown == PopupMessages(errors[..i])
    {
      shown := shown + [ErrorMessage(PopupText(errors[i]))];
    }
    assert errors[..|errors|] == errors;
  }

  // ---------------------------------------------------------------------------
  // Remapping through the preprocessor

  /** `lineMap[String(line)] ?? null`, then the `!map` check: `None` is a throw, for a
      missing map, a missing entry and a falsy entry alike. */
  function Lookup(lineMap: Option<Json>, line: int): (r: Option<Json>)
    ensures r.Some? ==> Truthy(r.value)
  {
    if lineMap.None? || lineMap.value.JNull? then None
    else
      var v := if line >= 0 then Index(lineMap.value, line)
        else if lineMap.value.JObject? && IntToString(line) in lineMap.value.fields
        then Some(lineMap.value.fields[IntToString(line)]) else None;
      if v.Some? && Truthy(v.value) then v else None
  }

  /** The position of the first error the map cannot remap (the length when it remaps
      them all). */
  function FirstUnmapped(errors: seq<FileError>, lineMap: Option<Json>): (k: nat)
    requires forall i :: 0 <= i < |errors| ==> WellTyped(errors[i])
    ensures k <= |errors|
    ensures forall i :: 0 <= i < k ==> Lookup(lineMap, LineOf(errors[i])).Some?
    ensures k < |errors| ==> Lookup(lineMap, LineOf(errors[k])).None?
  {
    if errors == [] then 0
    else if Lookup(lineMap, LineOf(errors[0])).None? then 0
    else
      var k := 1 + FirstUnmapped(errors[1..], lineMap);
      assert forall i :: 1 <= i < |errors| ==> errors[1..][i - 1] == errors[i];
      k
  }

  /** The errors after the remap loop: those before the first unmapped one moved to
      their new location, the rest as they were. */
  function Remapped(errors: seq<FileError>, lineMap: Option<Json>): (r: seq<FileError>)
    requires forall i :: 0 <= i < |errors| ==> WellTyped(errors[i])
    ensures |r| == |errors|
    ensures forall i :: 0 <= i < |errors| ==> r[i].message == errors[i].message
    ensures forall i :: 0 <= i < |errors| && i < FirstUnmapped(errors, lineMap) ==>
      r[i].loc == Lookup(lineMap, LineOf(errors[i])).value
    ensures forall i :: FirstUnmapped(errors, lineMap) <= i < |errors| ==> r[i] == errors[i]
  {
    var k := FirstUnmapped(errors, lineMap);
    seq(|errors|, i requires 0 <= i < |errors| =>
      if i < k then FileError(Lookup(lineMap, LineOf(errors[i])).value, errors[i].message) else errors[i])
  }

  /** The remap loop, rewriting each error's location in place and stopping at the
      first error it cannot remap; `remapped` is whether it got through them all. */
  method RemapErrors(errors: array<FileError>, lineMap: Option<Json>) returns (remapped: bool)
    requires forall i :: 0 <= i < errors.Length ==> WellTyped(errors[i])
    modifies errors
    ensures errors[..] == Remapped(old(errors[..]), lineMap)
    ensures remapped <==> FirstUnmapped(old(errors[..]), lineMap) == errors.Length
  {
    ghost var before := errors[..];
    var i := 0;
    while i < errors.Length
      invariant 0 <= i <= errors.Length && i <= FirstUnmapped(before, lineMap)
      invariant errors[..] == RemappedBefore(before, lineMap, i)
    {
      ghost var now := errors[..];
      var mapped := Lookup(lineMap, LineOf(errors[i]));
      if mapped.None? {
        UnmappedAt(before, lineMap, i);
        RemappedBeforeAll(before, lineMap);
        return false;
      }
      MappedAt(before, lineMap, i);
      errors[i] := FileError(mapped.value, errors[i].message);
      RemappedBeforeStep(before, lineMap, i);
      assert errors[..] == now[i := FileError(mapped.value, now[i].message)];
      i := i + 1;
    }
    RemappedBeforeAll(before, lineMap);
    return true;
  }

  /** The errors after `i` rounds of the remap loop. */
  function RemappedBefore(errors: seq<FileError>, lineMap: Option<Json>, i: nat): (r: seq<FileError>)
    requires forall j :: 0 <= j < |errors| ==> WellTyped(errors[j])
    requires i <= FirstUnmapped(errors, lineMap)
    ensures |r| == |errors|
  {
    seq(|errors|, j requires 0 <= j < |errors| =>
      if j < i then FileError(Lookup(lineMap, LineOf(errors[j])).value, errors[j].message) else errors[j])
  }

  /** One round moves error `i` to its target. */
  lemma RemappedBeforeStep(errors: seq<FileError>, lineMap: Option<Json>, i: nat)
    requires forall j :: 0 <= j < |errors| ==> WellTyped(errors[j])
    requires i < FirstUnmapped(errors, lineMap)
    ensures var before := RemappedBefore(errors, lineMap, i);
      RemappedBefore(errors, lineMap, i + 1) ==
        before[i := FileError(Lookup(lineMap, LineOf(before[i])).value, before[i].message)]
  {
  }

  /** After the rounds up to the first unmapped error the errors are `Remapped`. */
  lemma RemappedBeforeAll(errors: seq<FileError>, lineMap: Option<Json>)
    requires forall j :: 0 <= j < |errors| ==> WellTyped(errors[j])
    ensures RemappedBefore(errors, lineMap, FirstUnmapped(errors, lineMap)) == Remapped(errors, lineMap)
  {
  }

  /** An error without a target, with none before it, is the first unmapped one. */
  lemma UnmappedAt(errors: seq<FileError>, lineMap: Option<Json>, i: nat)
    requires forall j :: 0 <= j < |errors| ==> WellTyped(errors[j])
    requires i < |errors| && i <= FirstUnmapped(errors, lineMap)
    requires Lookup(lineMap, LineOf(errors[i])).None?
    ensures FirstUnmapped(errors, lineMap) == i
  {
  }

  /** An error with a target, with none unmapped before it, is not the first unmapped one. */
  lemma MappedAt(errors: seq<FileError>, lineMap: Option<Json>, i: nat)
    requires forall j :: 0 <= j < |errors| ==> WellTyped(errors[j])
    requires i < |errors| && i <= FirstUnmapped(errors, lineMap)
    requires Lookup(lineMap, LineOf(errors[i])).Some?
    ensures i < FirstUnmapped(errors, lineMap)
  {
  }

  /** What the remap step needs: the workspace folder, the remap command's output
      (`None` when it fails) and `JSON.parse` (`None` when it throws). */
  datatype RemapEnv = RemapEnv(workspaceRoot: Option<string>, stdout: Option<string>, parse: string -> Option<Json>)

  /** The line map of an answer that says it succeeded, if it did. */
  function SuccessfulAnswer(env: RemapEnv): Option<Json> {
    if env.workspaceRoot.None? || env.stdout.None? then None
    else match env.parse(env.stdout.value)
      case None => None
      case Some(result) =>
        if Truthy(result) && Field(result, "success").Some? && Truthy(Field(result, "success").value)
        then Some(result) else None
  }

  /** Whether the user is told that remapping failed: the command or the parse threw,
      or the loop stopped at an error it could not remap. */
  predicate RemapFailure(errors: seq<FileError>, env: RemapEnv)
    requires forall i :: 0 <= i < |errors| ==> WellTyped(errors[i])
  {
    env.workspaceRoot.Some? &&
    (env.stdout.None? || env.parse(env.stdout.value).None? ||
     (SuccessfulAnswer(env).Some? &&
      FirstUnmapped(errors, Field(SuccessfulAnswer(env).value, "lines")) < |errors|))
  }

  /** The errors as finally shown. */
  function ShownErrors(errors: seq<FileError>, env: RemapEnv): (r: seq<FileError>)
    requires forall i :: 0 <= i < |errors| ==> WellTyped(errors[i])
    ensures |r| == |errors|
    ensures forall i :: 0 <= i < |errors| ==> r[i].message == errors[i].message
  {
    match SuccessfulAnswer(env)
    case None => errors
    case Some(result) => Remapped(errors, Field(result, "lines"))
  }

  /** The messages of `displayMappedErrors`. */
  function MappedMessages(errors: seq<FileError>, env: RemapEnv): seq<Message>
    requires forall i :: 0 <= i < |errors| ==> WellTyped(errors[i])
  {
    (if RemapFailure(errors, env) then [RemapFailed] else []) + PopupMessages(ShownErrors(errors, env))
  }

  /** Whatever the remap does, every error is shown once, in order, with its message;
      at most a remap-failure notice comes first. */
  lemma MappedShowsEveryError(errors: seq<FileError>, env: RemapEnv)
    requires forall i :: 0 <= i < |errors| ==> WellTyped(errors[i])
    ensures var skip := if RemapFailure(errors, env) then 1 else 0;
      |MappedMessages(errors, env)| == |errors| + skip &&
      MappedMessages(errors, env)[skip..] == PopupMessages(ShownErrors(errors, env))
  {
    var prefix: seq<Message> := if RemapFailure(errors, env) then [RemapFailed] else [];
    var popups := PopupMessages(ShownErrors(errors, env));
    assert MappedMessages(errors, env) == prefix + popups;
    assert (prefix + popups)[|prefix|..] == popups;
  }

  /** Without a successful answer the errors are shown where the log put them. */
  lemma UnsuccessfulRemapKeepsErrors(errors: seq<FileError>, env: RemapEnv)
    requires forall i :: 0 <= i < |errors| ==> WellTyped(errors[i])
    requires SuccessfulAnswer(env).None?
    ensures ShownErrors(errors, env) == errors
  {
  }

  /** `displayMappedErrors`. The remap command's text is not modelled; its output is
      part of `env`. */
  method DisplayMappedErrors(errors: array<FileError>, env: RemapEnv) returns (shown: seq<Message>)
    requires forall i :: 0 <= i < errors.Length ==> WellTyped(errors[i])
    modifies errors
    ensures shown == MappedMessages(old(errors[..]), env)
    ensures errors[..] == ShownErrors(old(errors[..]), env)
  {
    ghost var before := errors[..];
    if env.workspaceRoot.None? {
      shown := ErrorPopup(errors[..]);
      return;
    }
    if env.stdout.None? {
      shown := ErrorPopup(errors[..]);
      return [RemapFailed] + shown;
    }
    var parsed := env.parse(env.stdout.value);
    if parsed.None? {
      shown := ErrorPopup(errors[..]);
      return [RemapFailed] + shown;
    }
    var result := parsed.value;
    var success := Field(result, "success");
    if Truthy(result) && success.Some? && Truthy(success.value) {
      var lineMap := Field(result, "lines");
      var remapped := RemapErrors(errors, lineMap);
      shown := ErrorPopup(errors[..]);
      if !remapped {
        shown := [RemapFailed] + shown;
      }
      return;
    }
    shown := ErrorPopup(errors[..]);
  }

  // ---------------------------------------------------------------------------
  // A change of the log

  /** The configuration `isPreProcConfigured` reads. */
  datatype PreProcSetup = PreProcSetup(langOf: string -> Language, cfg: PreProcRunner.PreProcConfig)

  /** The messages a change of the log leads to. */
  function ChangeMessages(codeFile: Option<WatchedFile>, logText: string, setup: PreProcSetup, env: RemapEnv)
    : (r: seq<Message>)
    ensures codeFile.None? || codeFile.value.rootFile == "" ==> r == []
    ensures codeFile.Some? && LogErrors(Split(logText, "\n"), codeFile.value.rootFile) == [] ==> r == []
  {
    if codeFile.None? || codeFile.value.rootFile == "" then []
    else
      var root := codeFile.value.rootFile;
      var errors := LogErrors(Split(logText, "\n"), root);
      if |errors| < 1 then []
      else if PreProcRunner.IsPreProcConfigured(root, setup.langOf, setup.cfg) then MappedMessages(errors, env)
      else PopupMessages(errors)
  }

  /** A log change shows every error of the log once, in log order, with at most a
      remap-failure notice in front of them; without a preprocessor the errors are
      shown exactly as logged. */
  lemma ChangeShowsEveryError(file: WatchedFile, logText: string, setup: PreProcSetup, env: RemapEnv)
    requires file.rootFile != ""
    ensures var errors := LogErrors(Split(logText, "\n"), file.rootFile);
      var r := ChangeMessages(Some(file), logText, setup, env);
      |errors| <= |r| <= |errors| + 1 &&
      (forall i :: |r| - |errors| <= i < |r| ==> r[i].ErrorMessage?) &&
      (!PreProcRunner.IsPreProcConfigured(file.rootFile, setup.langOf, setup.cfg) ==>
        r == PopupMessages(errors))
  {
    var errors := LogErrors(Split(logText, "\n"), file.rootFile);
    var r := ChangeMessages(Some(file), logText, setup, env);
    if errors == [] {
      assert r == [];
    } else if PreProcRunner.IsPreProcConfigured(file.rootFile, setup.langOf, setup.cfg) {
      assert r == MappedMessages(errors, env);
      MappedShowsEveryError(errors, env);
      var skip := if RemapFailure(errors, env) then 1 else 0;
      assert r[skip..] == PopupMessages(ShownErrors(errors, env));
    } else {
      assert r == PopupMessages(errors);
    }
  }

  /** `change`, given the outcome of reading `log.uri`: `None` where `readFile` rejects,
      and then nothing is shown. The log's code file is the watched script the log
      belongs to. */
  method Change(codeFile: Option<WatchedFile>, logText: Option<string>, setup: PreProcSetup, env: RemapEnv)
    returns (shown: seq<Message>)
    ensures logText.None? ==> shown == []
    ensures logText.Some? ==> shown == ChangeMessages(codeFile, logText.value, setup, env)
  {
    if codeFile.None? {
      return [];
    }
    var root := codeFile.value.rootFile;
    if root == "" {
      return [];
    }
    if logText.None? {
      return [];
    }
    var lines := Split(logText.value, "\n");
    var errors := ParseLog(lines, root);
    if |errors| < 1 {
      return [];
    }
    if PreProcRunner.IsPreProcConfigured(root, setup.langOf, setup.cfg) {
      var arr := new FileError[|errors|](i requires 0 <= i < |errors| => errors[i]);
      assert arr[..] == errors;
      shown := DisplayMappedErrors(arr, env);
    } else {
      shown := ErrorPopup(errors);
    }
  }
}
