/** The `TempWatcher` object of `src/tempWatcher.ts`: the dictionary of watched temp
    scripts, the directory scan that adds and retires entries, the lookup that pins a
    workspace file as a script's root, and the two registries of notification handlers. */
module Registry {
  import opened Wrappers
  import opened Text
  import opened Assoc
  import opened WatchedFiles
  import opened Matcher

  /** An entry of the temp directory listing: a name and a `vscode.FileType` bit set. */
  datatype DirEntry = DirEntry(name: string, fileType: int)

  /** `vscode.FileType.File`. */
  const FileTypeFile: int := 1

  /** Which handler registry a notification came from. */
  datatype Event = Create | Delete

  /** A handler called with a file. Handlers are opaque: one is known by its name, and
      the value registered under it stands for the callback. */
  datatype Notice = Notice(handler: string, event: Event, file: WatchedFile)

  /** Calling every registered handler, in registration order. */
  function Notify(handles: Dict<nat>, event: Event, file: WatchedFile): (r: seq<Notice>)
    ensures |r| == |handles|
    ensures forall i :: 0 <= i < |r| ==> r[i] == Notice(handles[i].0, event, file)
  {
    if handles == [] then []
    else Notify(handles[..|handles| - 1], event, file) + [Notice(Last(handles).0, event, file)]
  }

  /** Every watched record is stored under its own file name. */
  predicate NamedByKey(w: Dict<WatchedFile>) {
    forall i :: 0 <= i < |w| ==> w[i].1.fileName == w[i].0
  }

  lemma {:induction false} PutNamed(w: Dict<WatchedFile>, file: WatchedFile)
    requires NamedByKey(w)
    ensures NamedByKey(Put(w, file.fileName, file))
    decreases |w|
  {
    if w != [] && w[0].0 != file.fileName {
      PutNamed(w[1..], file);
      var r := Put(w, file.fileName, file);
      assert r == [w[0]] + Put(w[1..], file.fileName, file);
      forall i | 0 <= i < |r| ensures r[i].1.fileName == r[i].0 {
        if i > 0 {
          assert r[i] == Put(w[1..], file.fileName, file)[i - 1];
        }
      }
    }
  }

  lemma {:induction false} RemoveNamed(w: Dict<WatchedFile>, k: string)
    requires NamedByKey(w)
    ensures NamedByKey(Remove(w, k))
    decreases |w|
  {
    if w != [] {
      RemoveNamed(w[1..], k);
      if w[0].0 != k {
        var r := Remove(w, k);
        assert r == [w[0]] + Remove(w[1..], k);
        forall i | 0 <= i < |r| ensures r[i].1.fileName == r[i].0 {
          if i > 0 {
            assert r[i] == Remove(w[1..], k)[i - 1];
          }
        }
      }
    }
  }

  // ---------------------------------------------------------------------------
  // The scan, as functions

  /** The entries the scan considers: regular files named `sl_script_…`. */
  predicate IsTempScript(e: DirEntry) {
    e.fileType == FileTypeFile && StartsWith(e.name, "sl_script_")
  }

  /** The names the scan collects (`scripts`), in listing order. */
  function Scripts(entries: seq<DirEntry>): (r: seq<string>)
    ensures forall k :: k in r <==> exists i :: 0 <= i < |entries| && IsTempScript(entries[i]) && entries[i].name == k
  {
    if entries == [] then []
    else
      var front := entries[..|entries| - 1];
      var e := entries[|entries| - 1];
      assert forall i :: 0 <= i < |front| ==> front[i] == entries[i];
      Scripts(front) + (if IsTempScript(e) then [e.name] else [])
  }

  /** Whether the scan reads a new temp file's hints before watching it. */
  predicate ReadsHints(file: WatchedFile) {
    file.comment != "" && file.hintPrefix != ""
  }

  /** The record a new temp file is watched with, given the outcome of reading it (`None`
      where `readFile` rejects). The hints are read when it has a comment and a hint
      prefix, and a rejected read then leaves it unwatched; otherwise the read is
      not made. */
  function Initialise(file: WatchedFile, text: Option<string>): (r: Option<WatchedFile>)
    ensures r.None? <==> ReadsHints(file) && text.None?
    ensures r.Some? ==> r.value.fileName == file.fileName && r.value.ext == file.ext && r.value.language == file.language
    ensures file.hintPrefix == "" ==> r == Some(file)
  {
    if !ReadsHints(file) then Some(file)
    else match text
      case None => None
      case Some(t) => Some(WithHints(file, ParseHints(Split(t, "\n"), file.comment, file.hintPrefix)))
  }

  /** Whether a temp file's extension is among the configured ones. */
  predicate ExtensionAccepted(name: string, cfg: WatcherConfig) {
    ToLower(Last(Split(name, "."))) in FileExtensions(cfg)
  }

  lemma CreateFileExtIs(dir: string, name: string, cfg: WatcherConfig)
    ensures CreateFile(dir, name, cfg.hintPrefix).ext in FileExtensions(cfg) <==> ExtensionAccepted(name, cfg)
  {
  }

  /** Whether a listed temp script not yet watched is added by the scan: its extension
      is accepted, and the read of its hints, when it is made, succeeds. */
  predicate Admitted(name: string, cfg: WatcherConfig, dir: string, contents: string -> Option<string>) {
    ExtensionAccepted(name, cfg) && (ReadsHints(CreateFile(dir, name, cfg.hintPrefix)) ==> contents(name).Some?)
  }

  /** The registry's state as the scan sees it. */
  datatype ScanState = ScanState(watched: Dict<WatchedFile>, notices: seq<Notice>)

  /** One entry of the scan's first loop. */
  function AddStep(s: ScanState, e: DirEntry, cfg: WatcherConfig, dir: string,
                   contents: string -> Option<string>, handles: Dict<nat>): ScanState
  {
    if !IsTempScript(e) || e.name in KeySet(s.watched) then s
    else
      var file := CreateFile(dir, e.name, cfg.hintPrefix);
      if file.ext !in FileExtensions(cfg) then s
      else match Initialise(file, contents(e.name))
        case None => s
        case Some(f) => ScanState(Put(s.watched, e.name, f), s.notices + Notify(handles, Create, f))
  }

  /** The scan's first loop over the listing. */
  function ScanAdd(s: ScanState, entries: seq<DirEntry>, cfg: WatcherConfig, dir: string,
                   contents: string -> Option<string>, handles: Dict<nat>): ScanState
  {
    if entries == [] then s
    else
      AddStep(ScanAdd(s, entries[..|entries| - 1], cfg, dir, contents, handles),
        entries[|entries| - 1], cfg, dir, contents, handles)
  }

  /** One key of the scan's second loop: a watched name that was not listed is retired. */
  function RetireStep(s: ScanState, k: string, scripts: seq<string>, handles: Dict<nat>): ScanState {
    if k in scripts || Get(s.watched, k).None? then s
    else
      var f := Get(s.watched, k).value;
      ScanState(Remove(s.watched, f.fileName), s.notices + Notify(handles, Delete, f))
  }

  /** The scan's second loop over the watched names, as they were when it started. */
  function RetireAll(s: ScanState, keys: seq<string>, scripts: seq<string>, handles: Dict<nat>): ScanState {
    if keys == [] then s
    else RetireStep(RetireAll(s, keys[..|keys| - 1], scripts, handles), keys[|keys| - 1], scripts, handles)
  }

  /** The first loop keeps what was watched and adds exactly the listed temp scripts
      it admits. */
  lemma {:induction false} ScanAddKeys(s: ScanState, entries: seq<DirEntry>, cfg: WatcherConfig, dir: string,
                                       contents: string -> Option<string>, handles: Dict<nat>, k: string)
    ensures var r := ScanAdd(s, entries, cfg, dir, contents, handles).watched;
      k in KeySet(r) <==> k in KeySet(s.watched) || (k in Scripts(entries) && Admitted(k, cfg, dir, contents))
    ensures k in KeySet(s.watched) ==>
      Get(ScanAdd(s, entries, cfg, dir, contents, handles).watched, k) == Get(s.watched, k)
    decreases |entries|
  {
    if entries != [] {
      var front := entries[..|entries| - 1];
      var e := entries[|entries| - 1];
      ScanAddKeys(s, front, cfg, dir, contents, handles, k);
      CreateFileExtIs(dir, e.name, cfg);
    }
  }

  /** One more key retires one more step. */
  lemma RetireAllNext(s: ScanState, keys: seq<string>, j: nat, scripts: seq<string>, handles: Dict<nat>)
    requires j < |keys|
    ensures RetireAll(s, keys[..j + 1], scripts, handles) ==
      RetireStep(RetireAll(s, keys[..j], scripts, handles), keys[j], scripts, handles)
  {
    assert keys[..j + 1][..j] == keys[..j];
  }

  /** Keys the second loop has not reached yet are untouched by it. */
  lemma {:induction false} RetireAllKeys(s: ScanState, keys: seq<string>, scripts: seq<string>,
                                         handles: Dict<nat>, k: string)
    ensures var r := RetireAll(s, keys, scripts, handles).watched;
      k in KeySet(r) <==> k in KeySet(s.watched) && (k in scripts || k !in keys)
    ensures k in KeySet(RetireAll(s, keys, scripts, handles).watched) ==>
      Get(RetireAll(s, keys, scripts, handles).watched, k) == Get(s.watched, k)
    requires NamedByKey(s.watched)
    ensures NamedByKey(RetireAll(s, keys, scripts, handles).watched)
    decreases |keys|
  {
    if keys != [] {
      var front := keys[..|keys| - 1];
      var last := keys[|keys| - 1];
      RetireAllKeys(s, front, scripts, handles, k);
      RetireAllKeys(s, front, scripts, handles, last);
      var mid := RetireAll(s, front, scripts, handles);
      assert k in keys <==> k in front || k == last;
      if last !in scripts && Get(mid.watched, last).Some? {
        var i := GetWitness(mid.watched, last);
        RemoveNamed(mid.watched, last);
      }
    }
  }

  /** The scan in words: afterwards exactly the listed temp scripts are watched that
      were watched before or are admitted (an accepted extension, and a successful read
      where hints are read), and a script that stays watched keeps its record. */
  lemma WatchOutcome(w: Dict<WatchedFile>, notices: seq<Notice>, entries: seq<DirEntry>, cfg: WatcherConfig,
                     dir: string, contents: string -> Option<string>, createHandles: Dict<nat>,
                     deleteHandles: Dict<nat>, k: string)
    requires DistinctKeys(w) && NamedByKey(w)
    ensures var added := ScanAdd(ScanState(w, notices), entries, cfg, dir, contents, createHandles);
      var r := RetireAll(added, Keys(added.watched), Scripts(entries), deleteHandles).watched;
      (k in KeySet(r) <==> k in Scripts(entries) && (k in KeySet(w) || Admitted(k, cfg, dir, contents))) &&
      (k in KeySet(w) && k in Scripts(entries) ==> Get(r, k) == Get(w, k))
  {
    var added := ScanAdd(ScanState(w, notices), entries, cfg, dir, contents, createHandles);
    ScanAddKeys(ScanState(w, notices), entries, cfg, dir, contents, createHandles, k);
    ScanAddNamed(ScanState(w, notices), entries, cfg, dir, contents, createHandles);
    RetireAllKeys(added, Keys(added.watched), Scripts(entries), deleteHandles, k);
    assert k in KeySet(added.watched) <==> k in Keys(added.watched) by {
      if k in KeySet(added.watched) {
        var i :| 0 <= i < |added.watched| && added.watched[i].0 == k;
        assert Keys(added.watched)[i] == k;
      }
    }
  }

  lemma {:induction false} ScanAddNamed(s: ScanState, entries: seq<DirEntry>, cfg: WatcherConfig, dir: string,
                                        contents: string -> Option<string>, handles: Dict<nat>)
    requires DistinctKeys(s.watched) && NamedByKey(s.watched)
    ensures var r := ScanAdd(s, entries, cfg, dir, contents, handles).watched;
      DistinctKeys(r) && NamedByKey(r)
    decreases |entries|
  {
    if entries != [] {
      var front := entries[..|entries| - 1];
      var e := entries[|entries| - 1];
      ScanAddNamed(s, front, cfg, dir, contents, handles);
      var mid := ScanAdd(s, front, cfg, dir, contents, handles);
      if IsTempScript(e) && e.name !in KeySet(mid.watched) {
        var file := CreateFile(dir, e.name, cfg.hintPrefix);
        var f := Initialise(file, contents(e.name));
        if f.Some? {
          PutNamed(mid.watched, f.value);
        }
      }
    }
  }

  // ---------------------------------------------------------------------------
  // The lookup, as a function

  /** The path is one the watched file already knows as its root or an include. */
  predicate Pinned(file: WatchedFile, filePath: string) {
    filePath in file.includedFiles || file.rootFile == filePath
  }

  predicate Hit(file: WatchedFile, filePath: string, relative: string, cfg: WatcherConfig) {
    Pinned(file, filePath) || FileNameMatches(file, filePath, relative, cfg) == Accepted
  }

  /** The position of the first watched file, from `from` on, that the lookup stops at. */
  function FirstHit(w: Dict<WatchedFile>, filePath: string, relative: string, cfg: WatcherConfig, from: nat): (r: Option<nat>)
    requires from <= |w|
    ensures r.Some? ==> from <= r.value < |w|
    decreases |w| - from
  {
    if from == |w| then None
    else if Hit(w[from].1, filePath, relative, cfg) then Some(from)
    else FirstHit(w, filePath, relative, cfg, from + 1)
  }

  /** `FirstHit` finds a hit with no hit before it, or reports that there is none. */
  lemma {:induction false} FirstHitSpec(w: Dict<WatchedFile>, filePath: string, relative: string, cfg: WatcherConfig, from: nat)
    requires from <= |w|
    ensures var r := FirstHit(w, filePath, relative, cfg, from);
      (r.Some? ==> from <= r.value < |w| && Hit(w[r.value].1, filePath, relative, cfg)) &&
      (r.Some? ==> forall j :: from <= j < r.value ==> !Hit(w[j].1, filePath, relative, cfg)) &&
      (r.None? ==> forall j :: from <= j < |w| ==> !Hit(w[j].1, filePath, relative, cfg))
    decreases |w| - from
  {
    if from < |w| && !Hit(w[from].1, filePath, relative, cfg) {
      FirstHitSpec(w, filePath, relative, cfg, from + 1);
    }
  }

  lemma {:induction false} FirstHitIs(w: Dict<WatchedFile>, filePath: string, relative: string, cfg: WatcherConfig,
                                      from: nat, i: nat)
    requires from <= i < |w| && Hit(w[i].1, filePath, relative, cfg)
    requires forall j :: from <= j < i ==> !Hit(w[j].1, filePath, relative, cfg)
    ensures FirstHit(w, filePath, relative, cfg, from) == Some(i)
    decreases i - from
  {
    if from < i {
      FirstHitIs(w, filePath, relative, cfg, from + 1, i);
    }
  }

  lemma {:induction false} FirstHitNone(w: Dict<WatchedFile>, filePath: string, relative: string, cfg: WatcherConfig,
                                        from: nat)
    requires from <= |w|
    requires forall j :: from <= j < |w| ==> !Hit(w[j].1, filePath, relative, cfg)
    ensures FirstHit(w, filePath, relative, cfg, from) == None
    decreases |w| - from
  {
    if from < |w| {
      FirstHitNone(w, filePath, relative, cfg, from + 1);
    }
  }

  /** The lookup pins at most one file: only the first that the matcher accepts, and
      never when a file before it already knows the path. */
  lemma LookupPinsFirstAcceptor(w: Dict<WatchedFile>, filePath: string, relative: string, cfg: WatcherConfig, i: nat)
    requires i < |w| && FirstHit(w, filePath, relative, cfg, 0) == Some(i) && !Pinned(w[i].1, filePath)
    ensures FileNameMatches(w[i].1, filePath, relative, cfg) == Accepted
    ensures forall j :: 0 <= j < i ==> (!Pinned(w[j].1, filePath) &&
      FileNameMatches(w[j].1, filePath, relative, cfg) != Accepted)
  {
    FirstHitSpec(w, filePath, relative, cfg, 0);
  }

  /** The loop `for (const handle in handles) handles[handle](file)`. */
  method NotifyEach(handles: Dict<nat>, event: Event, file: WatchedFile) returns (called: seq<Notice>)
    ensures called == Notify(handles, event, file)
  {
    called := [];
    var i := 0;
    while i < |handles|
      invariant 0 <= i <= |handles|
      invariant called == Notify(handles[..i], event, file)
    {
      assert handles[..i + 1][..i] == handles[..i];
      called := called + [Notice(handles[i].0, event, file)];
      i := i + 1;
    }
    assert handles[..i] == handles;
  }

  /** The loop of `getMatchingTempFile`: the position it stops at (`|w|` when it runs
      to the end), by the three tests it makes on each watched file in turn. */
  method FindFirstHit(w: Dict<WatchedFile>, fp: string, relative: string, cfg: WatcherConfig) returns (i: nat)
    ensures i <= |w|
    ensures i < |w| ==> FirstHit(w, fp, relative, cfg, 0) == Some(i)
    ensures i == |w| ==> FirstHit(w, fp, relative, cfg, 0) == None
  {
    i := 0;
    while i < |w|
      invariant 0 <= i <= |w|
      invariant forall j :: 0 <= j < i ==> !Hit(w[j].1, fp, relative, cfg)
    {
      var file := w[i].1;
      if fp in file.includedFiles {
        FirstHitIs(w, fp, relative, cfg, 0, i);
        return;
      }
      if file.rootFile == fp {
        FirstHitIs(w, fp, relative, cfg, 0, i);
        return;
      }
      if FileNameMatches(file, fp, relative, cfg) == Accepted {
        FirstHitIs(w, fp, relative, cfg, 0, i);
        return;
      }
      i := i + 1;
    }
    FirstHitNone(w, fp, relative, cfg, 0);
  }

  // ---------------------------------------------------------------------------
  // The object

  class TempWatcher {
    /** The temp directory scanned (`vscode.Uri` as its path text). */
    const dir: string
    /** The watched temp scripts, keyed by file name. */
    var watched: Dict<WatchedFile>
    var createHandles: Dict<nat>
    var deleteHandles: Dict<nat>
    /** The handler calls made so far. */
    var notices: seq<Notice>

    predicate Valid()
      reads this
    {
      DistinctKeys(watched) && NamedByKey(watched) &&
      DistinctKeys(createHandles) && DistinctKeys(deleteHandles)
    }

    constructor(dir: string)
      ensures Valid()
      ensures this.dir == dir && watched == [] && createHandles == [] && deleteHandles == [] && notices == []
    {
      this.dir := dir;
      watched := [];
      createHandles := [];
      deleteHandles := [];
      notices := [];
    }

    /** `fileCreated`: watch the file and tell every create handler. */
    method FileCreated(file: WatchedFile)
      requires Valid()
      modifies this
      ensures Valid()
      ensures watched == Put(old(watched), file.fileName, file)
      ensures notices == old(notices) + Notify(createHandles, Create, file)
      ensures createHandles == old(createHandles) && deleteHandles == old(deleteHandles)
    {
      PutNamed(watched, file);
      watched := Put(watched, file.fileName, file);
      var called := NotifyEach(createHandles, Create, file);
      notices := notices + called;
    }

    /** `fileDeleted`: tell every delete handler, then stop watching the file. */
    method FileDeleted(file: WatchedFile)
      requires Valid()
      modifies this
      ensures Valid()
      ensures watched == Remove(old(watched), file.fileName)
      ensures notices == old(notices) + Notify(deleteHandles, Delete, file)
      ensures createHandles == old(createHandles) && deleteHandles == old(deleteHandles)
    {
      var called := NotifyEach(deleteHandles, Delete, file);
      notices := notices + called;
      RemoveNamed(watched, file.fileName);
      watched := Remove(watched, file.fileName);
    }

    /** `readHintsAndNotify`, given the outcome of reading the temp file: `None` where
        `readFile` rejects, and then the file is neither stored nor announced. */
    method ReadHintsAndNotify(file: WatchedFile, text: Option<string>)
      requires Valid()
      modifies this
      ensures Valid()
      ensures text.None? ==> watched == old(watched) && notices == old(notices)
      ensures text.Some? ==>
        var f := WithHints(file, ParseHints(Split(text.value, "\n"), file.comment, file.hintPrefix));
        watched == Put(old(watched), file.fileName, f) &&
        notices == old(notices) + Notify(createHandles, Create, f)
      ensures createHandles == old(createHandles) && deleteHandles == old(deleteHandles)
    {
      if text.None? {
        return;
      }
      var hints := ReadHints(text.value, file.comment, file.hintPrefix);
      FileCreated(WithHints(file, hints));
    }

    /** `watch`, given the directory listing, the configuration, and the outcome of
        reading each temp file (`None` where `readFile` rejects). */
    method Watch(entries: seq<DirEntry>, cfg: WatcherConfig, contents: string -> Option<string>)
      requires Valid()
      modifies this
      ensures Valid()
      ensures var added := ScanAdd(ScanState(old(watched), old(notices)), entries, cfg, dir, contents, createHandles);
        var final := RetireAll(added, Keys(added.watched), Scripts(entries), deleteHandles);
        watched == final.watched && notices == final.notices
      ensures createHandles == old(createHandles) && deleteHandles == old(deleteHandles)
    {
      var scripts := AddListed(entries, cfg, contents);
      RetireUnlisted(scripts);
    }

    /** The first loop of `watch`: collect the temp scripts and start watching new ones
        whose extension is configured. */
    method AddListed(entries: seq<DirEntry>, cfg: WatcherConfig, contents: string -> Option<string>)
      returns (scripts: seq<string>)
      requires Valid()
      modifies this
      ensures Valid()
      ensures scripts == Scripts(entries)
      ensures ScanState(watched, notices) ==
        ScanAdd(ScanState(old(watched), old(notices)), entries, cfg, dir, contents, createHandles)
      ensures createHandles == old(createHandles) && deleteHandles == old(deleteHandles)
    {
      scripts := [];
      var i := 0;
      while i < |entries|
        invariant 0 <= i <= |entries| && Valid()
        invariant createHandles == old(createHandles) && deleteHandles == old(deleteHandles)
        invariant scripts == Scripts(entries[..i])
        invariant ScanState(watched, notices) ==
          ScanAdd(ScanState(old(watched), old(notices)), entries[..i], cfg, dir, contents, createHandles)
      {
        var entry := entries[i];
        assert entries[..i + 1][..i] == entries[..i];
        assert entries[..i + 1][i] == entry;
        if entry.fileType == FileTypeFile && StartsWith(entry.name, "sl_script_") {
          scripts := scripts + [entry.name];
          if Get(watched, entry.name).None? {
            var file := CreateFile(dir, entry.name, cfg.hintPrefix);
            if file.ext in FileExtensions(cfg) {
              if file.comment != "" && file.hintPrefix != "" {
                ReadHintsAndNotify(file, contents(entry.name));
              } else {
                FileCreated(file);
              }
            }
          }
        }
        i := i + 1;
      }
      assert entries[..i] == entries;
    }

    /** The second loop of `watch`: retire every watched name that was not listed. */
    method RetireUnlisted(scripts: seq<string>)
      requires Valid()
      modifies this
      ensures Valid()
      ensures ScanState(watched, notices) ==
        RetireAll(ScanState(old(watched), old(notices)), Keys(old(watched)), scripts, deleteHandles)
      ensures createHandles == old(createHandles) && deleteHandles == old(deleteHandles)
    {
      var keys := Keys(watched);
      var j := 0;
      while j < |keys|
        invariant 0 <= j <= |keys| && Valid()
        invariant createHandles == old(createHandles) && deleteHandles == old(deleteHandles)
        invariant ScanState(watched, notices) ==
          RetireAll(ScanState(old(watched), old(notices)), keys[..j], scripts, deleteHandles)
      {
        RetireIfUnlisted(keys[j], scripts);
        RetireAllNext(ScanState(old(watched), old(notices)), keys, j, scripts, deleteHandles);
        j := j + 1;
      }
      assert keys[..j] == keys;
    }

    /** One key of the second loop of `watch`. */
    method RetireIfUnlisted(name: string, scripts: seq<string>)
      requires Valid()
      modifies this
      ensures Valid()
      ensures ScanState(watched, notices) == RetireStep(ScanState(old(watched), old(notices)), name, scripts, deleteHandles)
      ensures createHandles == old(createHandles) && deleteHandles == old(deleteHandles)
    {
      if name !in scripts {
        var found := Get(watched, name);
        if found.Some? {
          FileDeleted(found.value);
        }
      }
    }

    /** `getMatchingTempFile`: the first watched file that knows the lowercased path or
        that the matcher accepts; an accepted file has the path pinned as its root. */
    method GetMatchingTempFile(filePath: string, relative: string, cfg: WatcherConfig) returns (r: Option<WatchedFile>)
      requires Valid()
      modifies this
      ensures Valid()
      ensures var fp := ToLower(filePath);
        match FirstHit(old(watched), fp, relative, cfg, 0)
        case None => r.None? && watched == old(watched)
        case Some(i) =>
          var f := old(watched)[i].1;
          if Pinned(f, fp) then r == Some(f) && watched == old(watched)
          else r == Some(f.(rootFile := fp)) && watched == Put(old(watched), f.fileName, r.value)
      ensures notices == old(notices)
      ensures createHandles == old(createHandles) && deleteHandles == old(deleteHandles)
    {
      var fp := ToLower(filePath);
      var i := FindFirstHit(watched, fp, relative, cfg);
      if i == |watched| {
        return None;
      }
      var file := watched[i].1;
      if Pinned(file, fp) {
        return Some(file);
      }
      var pinned := file.(rootFile := fp);
      var updated := Put(watched, pinned.fileName, pinned);
      PutNamed(watched, pinned);
      assert DistinctKeys(updated) && NamedByKey(updated);
      watched := updated;
      r := Some(pinned);
    }

    /** The workspace tester's `temp.multiMatch = true` on a record it got from here. */
    method MarkMultiMatch(fileName: string)
      requires Valid()
      modifies this
      ensures Valid()
      ensures match Get(old(watched), fileName)
        case None => watched == old(watched)
        case Some(f) => watched == Put(old(watched), fileName, f.(multiMatch := true))
      ensures notices == old(notices)
      ensures createHandles == old(createHandles) && deleteHandles == old(deleteHandles)
    {
      var found := Get(watched, fileName);
      if found.Some? {
        var k := GetWitness(watched, fileName);
        var marked := found.value.(multiMatch := true);
        assert marked.fileName == fileName;
        var updated := Put(watched, fileName, marked);
        PutNamed(watched, marked);
        watched := updated;
      }
    }

    method HookFileCreate(handleName: string, cb: nat)
      requires Valid()
      modifies this
      ensures Valid()
      ensures createHandles == Put(old(createHandles), handleName, cb)
      ensures watched == old(watched) && deleteHandles == old(deleteHandles) && notices == old(notices)
    {
      createHandles := Put(createHandles, handleName, cb);
    }

    /** `unhookFileCreate`: whether a handler of that name was registered; only that
        one is removed. */
    method UnhookFileCreate(handleName: string) returns (existed: bool)
      requires Valid()
      modifies this
      ensures Valid()
      ensures existed <==> handleName in KeySet(old(createHandles))
      ensures createHandles == Remove(old(createHandles), handleName)
      ensures watched == old(watched) && deleteHandles == old(deleteHandles) && notices == old(notices)
    {
      if Get(createHandles, handleName).Some? {
        createHandles := Remove(createHandles, handleName);
        return true;
      }
      RemoveAbsent(createHandles, handleName);
      return false;
    }

    method HookFileDelete(handleName: string, cb: nat)
      requires Valid()
      modifies this
      ensures Valid()
      ensures deleteHandles == Put(old(deleteHandles), handleName, cb)
      ensures watched == old(watched) && createHandles == old(createHandles) && notices == old(notices)
    {
      deleteHandles := Put(deleteHandles, handleName, cb);
    }

    /** `unhookFileDelete`: whether a handler of that name was registered; only that
        one is removed. */
    method UnhookFileDelete(handleName: string) returns (existed: bool)
      requires Valid()
      modifies this
      ensures Valid()
      ensures existed <==> handleName in KeySet(old(deleteHandles))
      ensures deleteHandles == Remove(old(deleteHandles), handleName)
      ensures watched == old(watched) && createHandles == old(createHandles) && notices == old(notices)
    {
      if Get(deleteHandles, handleName).Some? {
        deleteHandles := Remove(deleteHandles, handleName);
        return true;
      }
      RemoveAbsent(deleteHandles, handleName);
      return false;
    }
  }

  /** Unhooking leaves every other handler registered with its callback. */
  lemma UnhookKeepsOthers(handles: Dict<nat>, name: string, other: string)
    requires other != name
    ensures Get(Remove(handles, name), other) == Get(handles, other)
    ensures name !in KeySet(Remove(handles, name))
  {
  }
}
