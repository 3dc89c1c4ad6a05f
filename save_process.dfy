/** `src/saveProcess.ts`: when a workspace file is saved, the watched temp script it
    belongs to is rewritten with the file's text behind a header that repeats the
    script's hints, so that the hint parser reads them back. */
module SaveProcess {
  import opened Wrappers
  import opened Text
  import opened Assoc
  import opened WatchedFiles
  import opened Matcher
  import opened Registry

  /** The line that opens and closes the header. */
  function Marker(comment: string): string {
    comment + " ============================ " + comment
  }

  /** The header line of one hint. */
  function HintLine(comment: string, prefix: string, key: string, value: string): string {
    comment + " " + prefix + key + " " + value
  }

  /** The hint lines, in hint order. */
  function HintLines(h: Dict<string>, comment: string, prefix: string): (r: seq<string>)
    ensures |r| == |h| && forall i :: 0 <= i < |h| ==> r[i] == HintLine(comment, prefix, h[i].0, h[i].1)
  {
    seq(|h|, i requires 0 <= i < |h| => HintLine(comment, prefix, h[i].0, h[i].1))
  }

  /** The header's lines: nothing without hints; otherwise the hint lines between two
      markers, and an empty last line so that the text starts on a line of its own. */
  function HeaderLines(h: Dict<string>, comment: string, prefix: string): (r: seq<string>)
    ensures h == [] ==> r == []
    ensures h != [] ==> |r| == |h| + 3 && r[0] == Marker(comment) && r[|h| + 1] == Marker(comment) && r[|h| + 2] == ""
    ensures h != [] ==> r[1..|h| + 1] == HintLines(h, comment, prefix)
  {
    if h == [] then []
    else
      var r := [Marker(comment)] + HintLines(h, comment, prefix) + [Marker(comment), ""];
      assert r[1..|h| + 1] == HintLines(h, comment, prefix);
      r
  }

  /** The prefix loop of `saveDataToTempFile`: one `push` per hint, then the closing
      marker, the opening marker (`unshift`) and the empty line, when there are hints. */
  method BuildPrefix(tempFile: WatchedFile) returns (prefix: seq<string>)
    ensures prefix == HeaderLines(tempFile.hints, tempFile.comment, tempFile.hintPrefix)
  {
    var h := tempFile.hints;
    prefix := [];
    var i := 0;
    while i < |h|
      invariant 0 <= i <= |h|
      invariant prefix == HintLines(h[..i], tempFile.comment, tempFile.hintPrefix)
    {
      prefix := prefix + [HintLine(tempFile.comment, tempFile.hintPrefix, h[i].0, h[i].1)];
      i := i + 1;
    }
    assert h[..i] == h;
    if |prefix| > 0 {
      var marker := Marker(tempFile.comment);
      prefix := prefix + [marker];
      prefix := [marker] + prefix;
      prefix := prefix + [""];
    }
  }

  /** What the temp file is overwritten with. */
  function TempContent(tempFile: WatchedFile, text: string): string {
    Join(HeaderLines(tempFile.hints, tempFile.comment, tempFile.hintPrefix), "\n") + text
  }

  /** Without hints the written content is the text exactly. */
  lemma NoHintsNoHeader(tempFile: WatchedFile, text: string)
    requires tempFile.hints == []
    ensures TempContent(tempFile, text) == text
  {
  }

  /** With hints the content is the header lines, each ended by a line break, and then
      the text. */
  lemma HeaderShape(tempFile: WatchedFile, text: string)
    requires tempFile.hints != []
    ensures var front := [Marker(tempFile.comment)] + HintLines(tempFile.hints, tempFile.comment, tempFile.hintPrefix)
      + [Marker(tempFile.comment)];
      TempContent(tempFile, text) == Join(front, "\n") + "\n" + text
  {
    var c := tempFile.comment;
    var front := [Marker(c)] + HintLines(tempFile.hints, c, tempFile.hintPrefix) + [Marker(c)];
    assert HeaderLines(tempFile.hints, c, tempFile.hintPrefix) == front + [""];
    JoinAppend(front, [""], "\n");
  }

  /** A write of the temp file. */
  datatype Write = Write(uri: string, content: string)

  /** `saveDataToTempFile`, given the text of each workspace file; `read` gives `None`
      where `readFile` rejects, and then nothing is written. */
  method SaveDataToTempFile(fileName: string, tempFile: WatchedFile, read: string -> Option<string>)
    returns (w: Option<Write>)
    ensures read(fileName).None? ==> w.None?
    ensures read(fileName).Some? ==> w == Some(Write(tempFile.uri, TempContent(tempFile, read(fileName).value)))
  {
    var data := read(fileName);
    if data.None? {
      return None;
    }
    var text := data.value;
    var prefix := BuildPrefix(tempFile);
    w := Some(Write(tempFile.uri, Join(prefix, "\n") + text));
  }

  /** The file whose text is written: the saved file when it is the script's root,
      otherwise the root file (saving an include). */
  function SourceFor(tempFile: WatchedFile, savedName: string): (r: string)
    ensures tempFile.rootFile == ToLower(savedName) ==> r == savedName
    ensures tempFile.rootFile != ToLower(savedName) ==> r == tempFile.rootFile
  {
    if tempFile.rootFile == ToLower(savedName) then savedName else tempFile.rootFile
  }

  /** The save handler of `setup`: look the saved file up, and if it belongs to a temp
      script, rewrite the script from the root or the include path. The lookup pins
      the saved file as the script's root, as `getMatchingTempFile` does. */
  method OnSave(watcher: TempWatcher, savedName: string, relative: string, cfg: WatcherConfig,
                read: string -> Option<string>) returns (matched: Option<WatchedFile>, w: Option<Write>)
    requires watcher.Valid()
    modifies watcher
    ensures watcher.Valid()
    ensures var fp := ToLower(savedName);
      match FirstHit(old(watcher.watched), fp, relative, cfg, 0)
      case None => matched.None? && watcher.watched == old(watcher.watched)
      case Some(i) =>
        var f := old(watcher.watched)[i].1;
        if Pinned(f, fp) then matched == Some(f) && watcher.watched == old(watcher.watched)
        else (matched == Some(f.(rootFile := fp)) &&
              watcher.watched == Put(old(watcher.watched), f.fileName, matched.value))
    ensures watcher.notices == old(watcher.notices)
    ensures watcher.createHandles == old(watcher.createHandles) && watcher.deleteHandles == old(watcher.deleteHandles)
    ensures matched.None? ==> w.None?
    ensures matched.Some? ==>
      var source := SourceFor(matched.value, savedName);
      w == (if read(source).None? then None
            else Some(Write(matched.value.uri, TempContent(matched.value, read(source).value))))
  {
    matched := watcher.GetMatchingTempFile(savedName, relative, cfg);
    if matched.None? {
      return matched, None;
    }
    var tempFile := matched.value;
    var root := tempFile.rootFile == ToLower(savedName);
    if root {
      w := SaveDataToTempFile(savedName, tempFile, read);
    } else {
      w := SaveIncludeFile(tempFile, read);
    }
  }

  /** `saveIncludeFile`: rewrite the script from its root file. */
  method SaveIncludeFile(tempFile: WatchedFile, read: string -> Option<string>) returns (w: Option<Write>)
    ensures read(tempFile.rootFile).None? ==> w.None?
    ensures read(tempFile.rootFile).Some? ==>
      w == Some(Write(tempFile.uri, TempContent(tempFile, read(tempFile.rootFile).value)))
  {
    w := SaveDataToTempFile(tempFile.rootFile, tempFile, read);
  }

  /** A file that the matcher has just pinned is its script's root, so its own text is
      written. */
  lemma PinnedSaveUsesSavedFile(f: WatchedFile, savedName: string)
    ensures SourceFor(f.(rootFile := ToLower(savedName)), savedName) == savedName
  {
  }

  // ---------------------------------------------------------------------------
  // The header and the hint parser

  /** A comment marker the round trip works for: non-empty, without whitespace, as both
      `//` and `--` are. */
  predicate GoodComment(c: string) {
    c != "" && forall i :: 0 <= i < |c| ==> !IsWhitespace(c[i])
  }

  /** A hint prefix the round trip works for: non-empty, not starting with whitespace or
      with the marker's `=`, and on one line. */
  predicate GoodPrefix(p: string) {
    p != "" && !IsWhitespace(p[0]) && p[0] != '=' && '\n' !in p
  }

  /** A hint the round trip works for: a key without whitespace and a lowercase,
      trimmed value on one line. */
  predicate GoodHint(k: string, v: string) {
    k != "" && (forall i :: 0 <= i < |k| ==> !IsWhitespace(k[i])) &&
    IsLower(v) && Trim(v) == v && '\n' !in v
  }

  predicate GoodHints(h: Dict<string>) {
    DistinctKeys(h) && forall i :: 0 <= i < |h| ==> GoodHint(h[i].0, h[i].1)
  }

  lemma CommentsAreGood(lang: Language)
    ensures GoodComment(CommentFor(lang))
  {
  }

  /** Trimming a string whose first character follows the comment marker's space. */
  lemma TrimAfterSpace(c: string, s: string)
    requires s == [] || (!IsWhitespace(s[0]) && !IsWhitespace(s[|s| - 1]))
    ensures Trim((c + " " + s)[|c|..]) == s
  {
    assert (c + " " + s)[|c|..] == " " + s;
    TrimStartPrependSpace(" ", s);
    TrimEndNoop(s);
  }

  /** The markers are not hint lines. */
  lemma MarkerIsNoHint(c: string, p: string)
    requires GoodComment(c) && GoodPrefix(p)
    ensures ParseLine(Marker(c), c, p) == None
  {
    var m := Marker(c);
    var rest := "============================ " + c;
    assert m == c + " " + rest;
    TrimNoop(m);
    assert StartsWith(m, c);
    TrimAfterSpace(c, rest);
    assert rest[0] == '=';
    ParseLineNoPrefix(m, c, p);
  }

  /** What follows the hint prefix on a hint line, once trimmed. */
  function HintTail(k: string, v: string): string {
    if v == "" then k else k + " " + v
  }

  lemma HintTailEnds(k: string, v: string)
    requires GoodHint(k, v)
    ensures var t := HintTail(k, v); t != [] && !IsWhitespace(t[0]) && !IsWhitespace(t[|t| - 1])
  {
  }

  /** The trimmed hint line. */
  lemma HintLineTrim(c: string, p: string, k: string, v: string)
    requires GoodComment(c) && GoodPrefix(p) && GoodHint(k, v)
    ensures Trim(HintLine(c, p, k, v)) == c + " " + (p + HintTail(k, v))
  {
    var t := c + " " + (p + HintTail(k, v));
    HintTailEnds(k, v);
    if v == "" {
      assert HintLine(c, p, k, v) == t + " ";
      TrimStartNoop(t + " ");
      TrimEndAppendSpace(t, " ");
    } else {
      assert HintLine(c, p, k, v) == t;
      TrimNoop(t);
    }
  }

  /** The trimmed text after the prefix splits into the key and the value. */
  lemma HintTailSplit(k: string, v: string)
    requires GoodHint(k, v)
    ensures Split(HintTail(k, v), " ")[0] == k
    ensures ToLower(Trim(Join(Split(HintTail(k, v), " ")[1..], " "))) == v
  {
    var t := HintTail(k, v);
    SplitFirstSpace(t);
    if v == "" {
      assert ' ' !in t;
      assert Split(t, " ")[1..] == [];
    } else {
      assert t[|k|] == ' ' && t[..|k|] == k && t[|k| + 1..] == v;
      assert ' ' !in t[..|k|];
      TrimNoop(v);
    }
  }

  /** A hint line reads back as its hint. */
  lemma HintLineParses(c: string, p: string, k: string, v: string)
    requires GoodComment(c) && GoodPrefix(p) && GoodHint(k, v)
    ensures ParseLine(HintLine(c, p, k, v), c, p) == Some((k, v))
  {
    var line := HintLine(c, p, k, v);
    var tail := HintTail(k, v);
    HintLineTrim(c, p, k, v);
    HintTailEnds(k, v);
    assert StartsWith(Trim(line), c);
    assert (p + tail)[0] == p[0];
    TrimAfterSpace(c, p + tail);
    assert (p + tail)[..|p|] == p && (p + tail)[|p|..] == tail;
    TrimNoop(tail);
    ParseLineAfterPrefix(line, c, p, tail);
    HintTailSplit(k, v);
  }

  /** Lines that are not hint lines leave the hints as they are. */
  lemma {:induction false} ParseHintsAppendNone(lines: seq<string>, more: seq<string>, c: string, p: string)
    requires forall j :: 0 <= j < |more| ==> ParseLine(more[j], c, p) == None
    ensures ParseHints(lines + more, c, p) == ParseHints(lines, c, p)
    decreases |more|
  {
    if more != [] {
      var all := lines + more;
      var front := more[..|more| - 1];
      assert all[..|all| - 1] == lines + front;
      assert all[|all| - 1] == more[|more| - 1];
      ParseHintsStep(all, c, p);
      ParseHintsAppendNone(lines, front, c, p);
    } else {
      assert lines + more == lines;
    }
  }

  /** The opening marker and the hint lines read back as the hints. */
  lemma {:induction false} HintBlockParses(h: Dict<string>, c: string, p: string)
    requires GoodComment(c) && GoodPrefix(p) && GoodHints(h)
    ensures ParseHints([Marker(c)] + HintLines(h, c, p), c, p) == h
    decreases |h|
  {
    if h == [] {
      MarkerIsNoHint(c, p);
      ParseHintsAppendNone([], [Marker(c)], c, p);
      assert [Marker(c)] + HintLines(h, c, p) == [] + [Marker(c)];
    } else {
      var n := |h| - 1;
      var front := h[..n];
      var k, v := h[n].0, h[n].1;
      DistinctKeysFront(h);
      HintBlockParses(front, c, p);
      HintLinesFront(h, c, p);
      HintLineParses(c, p, k, v);
      ParseHintsSnoc([Marker(c)] + HintLines(front, c, p), HintLine(c, p, k, v), c, p, k, v);
      PutLastFresh(front, k, v);
      LastSplit(h);
    }
  }

  /** A hint line appended to some lines assigns its key. */
  lemma ParseHintsSnoc(lines: seq<string>, line: string, c: string, p: string, k: string, v: string)
    requires ParseLine(line, c, p) == Some((k, v))
    ensures ParseHints(lines + [line], c, p) == Put(ParseHints(lines, c, p), k, v)
  {
    var all := lines + [line];
    assert all[..|all| - 1] == lines;
    ParseHintsStep(all, c, p);
  }

  /** Dropping the last hint drops the last hint line. */
  lemma HintLinesFront(h: Dict<string>, c: string, p: string)
    requires h != []
    ensures [Marker(c)] + HintLines(h, c, p) ==
      [Marker(c)] + HintLines(h[..|h| - 1], c, p) + [HintLine(c, p, h[|h| - 1].0, h[|h| - 1].1)]
  {
    var n := |h| - 1;
    var a := HintLines(h, c, p);
    var b := HintLines(h[..n], c, p);
    assert a == b + [a[n]];
  }

  lemma LastSplit<T, U>(h: seq<(T, U)>)
    requires h != []
    ensures h == h[..|h| - 1] + [(h[|h| - 1].0, h[|h| - 1].1)]
  {
  }

  /** Assigning a key the hints do not have yet appends it. */
  lemma PutLastFresh(h: Dict<string>, k: string, v: string)
    requires k !in KeySet(h)
    ensures Put(h, k, v) == h + [(k, v)]
  {
  }

  /** The round trip: the temp file written on save, read by the hint parser, gives the
      hints back, provided the workspace text itself carries no hint lines. */
  lemma HeaderRoundTrip(tempFile: WatchedFile, text: string)
    requires GoodComment(tempFile.comment) && GoodPrefix(tempFile.hintPrefix) && GoodHints(tempFile.hints)
    requires forall j :: 0 <= j < |Split(text, "\n")| ==>
      ParseLine(Split(text, "\n")[j], tempFile.comment, tempFile.hintPrefix) == None
    ensures ParseHints(Split(TempContent(tempFile, text), "\n"), tempFile.comment, tempFile.hintPrefix) == tempFile.hints
  {
    var h := tempFile.hints;
    var c := tempFile.comment;
    var p := tempFile.hintPrefix;
    var rest := Split(text, "\n");
    if h == [] {
      NoHintsNoHeader(tempFile, text);
      ParseHintsAppendNone([], rest, c, p);
      assert [] + rest == rest;
    } else {
      var block := [Marker(c)] + HintLines(h, c, p);
      SplitContent(tempFile, text);
      NoHintsAfterMarker(c, p, rest);
      ParseHintsAppendNone(block, [Marker(c)] + rest, c, p);
      HintBlockParses(h, c, p);
    }
  }

  /** The lines of the written content: the hint block, the closing marker, and the
      lines of the text. */
  lemma SplitContent(tempFile: WatchedFile, text: string)
    requires GoodComment(tempFile.comment) && GoodPrefix(tempFile.hintPrefix) && GoodHints(tempFile.hints)
    requires tempFile.hints != []
    ensures var c := tempFile.comment;
      Split(TempContent(tempFile, text), "\n") ==
        ([Marker(c)] + HintLines(tempFile.hints, c, tempFile.hintPrefix)) + ([Marker(c)] + Split(text, "\n"))
  {
    GoodIsOneLine(tempFile.hints, tempFile.comment, tempFile.hintPrefix);
    SplitHeaderAndText(tempFile, text);
  }

  /** The same, for any header whose pieces are each on one line. */
  lemma SplitHeaderAndText(tempFile: WatchedFile, text: string)
    requires '\n' !in tempFile.comment && '\n' !in tempFile.hintPrefix
    requires forall i :: 0 <= i < |tempFile.hints| ==> '\n' !in tempFile.hints[i].0 && '\n' !in tempFile.hints[i].1
    requires tempFile.hints != []
    ensures var c := tempFile.comment;
      Split(TempContent(tempFile, text), "\n") ==
        ([Marker(c)] + HintLines(tempFile.hints, c, tempFile.hintPrefix)) + ([Marker(c)] + Split(text, "\n"))
  {
    var c := tempFile.comment;
    var block := [Marker(c)] + HintLines(tempFile.hints, c, tempFile.hintPrefix);
    var front := block + [Marker(c)];
    HeaderShape(tempFile, text);
    HeaderLinesUnbroken(tempFile.hints, c, tempFile.hintPrefix);
    SplitLinesThenText(front, text);
    assert front + Split(text, "\n") == block + ([Marker(c)] + Split(text, "\n"));
  }

  /** Lines without line breaks, each ended by one, split back into those lines. */
  lemma SplitLinesThenText(front: seq<string>, text: string)
    requires |front| >= 1
    requires forall k :: 0 <= k < |front| ==> '\n' !in front[k]
    ensures Split(Join(front, "\n") + "\n" + text, "\n") == front + Split(text, "\n")
  {
    SplitJoinPrefix(front, '\n', text);
  }

  lemma NoHintsAfterMarker(c: string, p: string, rest: seq<string>)
    requires GoodComment(c) && GoodPrefix(p)
    requires forall j :: 0 <= j < |rest| ==> ParseLine(rest[j], c, p) == None
    ensures forall j :: 0 <= j < |[Marker(c)] + rest| ==> ParseLine(([Marker(c)] + rest)[j], c, p) == None
  {
    var all := [Marker(c)] + rest;
    forall j | 0 <= j < |all| ensures ParseLine(all[j], c, p) == None {
      if j == 0 {
        MarkerIsNoHint(c, p);
      } else {
        assert all[j] == rest[j - 1];
      }
    }
  }

  /** A good comment, prefix and hints hold no line break. */
  lemma GoodIsOneLine(h: Dict<string>, c: string, p: string)
    requires GoodComment(c) && GoodPrefix(p) && GoodHints(h)
    ensures '\n' !in c && '\n' !in p
    ensures forall i :: 0 <= i < |h| ==> '\n' !in h[i].0 && '\n' !in h[i].1
  {
    assert '\n' !in c;
    forall i | 0 <= i < |h| ensures '\n' !in h[i].0 && '\n' !in h[i].1 {
      assert GoodHint(h[i].0, h[i].1);
    }
  }

  /** No header line holds a line break. */
  lemma HeaderLinesUnbroken(h: Dict<string>, c: string, p: string)
    requires '\n' !in c && '\n' !in p
    requires forall i :: 0 <= i < |h| ==> '\n' !in h[i].0 && '\n' !in h[i].1
    ensures var front := [Marker(c)] + HintLines(h, c, p) + [Marker(c)];
      forall k :: 0 <= k < |front| ==> '\n' !in front[k]
  {
    var lines := HintLines(h, c, p);
    var front := [Marker(c)] + lines + [Marker(c)];
    forall k | 0 <= k < |front| ensures '\n' !in front[k] {
      if 0 < k <= |h| {
        assert front[k] == lines[k - 1];
      } else {
        assert front[k] == Marker(c);
      }
    }
  }
}
