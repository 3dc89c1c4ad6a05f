/** `src/defsDownloader.ts`: downloading definition, documentation, snippet and Selene
    files into the extension's global storage, with a `cyrb53` hash naming each cached
    file and detecting changed contents, and writing the workspace's `selene.toml`. */
module DefsDownloader {
  import opened Wrappers
  import opened Text
  import opened WatchedFiles

  // ---------------------------------------------------------------------------
  // cyrb53

  /** 2^32: JavaScript's bitwise operators work on the low 32 bits of a number. */
  const Word: nat := 0x1_0000_0000

  /** The bitwise exclusive or of two naturals. */
  function Xor(a: nat, b: nat): nat
    decreases a + b
  {
    if a == 0 && b == 0 then 0 else 2 * Xor(a / 2, b / 2) + (a % 2 + b % 2) % 2
  }

  /** `a ^ b`, as the bits of the 32-bit result. */
  function Xor32(a: nat, b: nat): (r: nat)
    ensures r < Word
  {
    Xor(a, b) % Word
  }

  /** `Math.imul(a, b)`: the low 32 bits of the product. */
  function Imul(a: nat, b: nat): (r: nat)
    ensures r < Word
  {
    (a * b) % Word
  }

  /** `a >>> k` on a 32-bit pattern. */
  function Shr(a: nat, k: nat): nat {
    if k == 0 then a else Shr(a / 2, k - 1)
  }

  /** The UTF-16 code units that `charCodeAt` reads. */
  function CodeUnits(s: string): (r: seq<nat>)
    ensures |r| == JsLength(s)
  {
    var u := Utf16(s);
    seq(|u|, i requires 0 <= i < |u| => u[i] as nat)
  }

  /** `h1 = 0xdeadbeef ^ seed, h2 = 0x41c6ce57 ^ seed`. */
  function HashStart(seed: nat): (nat, nat) {
    (Xor32(0xdeadbeef, seed), Xor32(0x41c6ce57, seed))
  }

  /** One round of the loop. */
  function HashRound(h: (nat, nat), ch: nat): (nat, nat) {
    (Imul(Xor32(h.0, ch), 2654435761), Imul(Xor32(h.1, ch), 1597334677))
  }

  /** The state after the loop has absorbed `units`. */
  function Absorb(units: seq<nat>, seed: nat): (nat, nat) {
    if units == [] then HashStart(seed)
    else HashRound(Absorb(units[..|units| - 1], seed), units[|units| - 1])
  }

  /** The four mixing statements after the loop; the last uses the new `h1`. */
  function HashFinish(h: (nat, nat)): (r: (nat, nat))
    ensures r.0 < Word && r.1 < Word
  {
    var h1 := Imul(Xor32(h.0, Shr(h.0, 16)), 2246822507);
    var h1' := Xor32(h1, Imul(Xor32(h.1, Shr(h.1, 13)), 3266489909));
    var h2 := Imul(Xor32(h.1, Shr(h.1, 16)), 2246822507);
    var h2' := Xor32(h2, Imul(Xor32(h1', Shr(h1', 13)), 3266489909));
    (h1', h2')
  }

  /** `4294967296 * (2097151 & h2) + (h1 >>> 0)`: 21 bits of `h2` above the 32 bits of
      `h1`, so the number is exact in a double. */
  function Combine(h1: nat, h2: nat): (r: nat)
    requires h1 < Word
    ensures r < 0x20_0000_0000_0000
    ensures r % Word == h1 && r / Word == h2 % 0x20_0000
  {
    4294967296 * (h2 % 0x20_0000) + h1
  }

  /** The value of `cyrb53(str, seed)` before `toString(16)`; `seed` is taken as the
      32-bit pattern `^` uses. */
  function Cyrb53(str: string, seed: nat): (r: nat)
    ensures r < 0x20_0000_0000_0000
  {
    var h := HashFinish(Absorb(CodeUnits(str), seed));
    Combine(h.0, h.1)
  }

  /** `cyrb53` as the source computes it, updating `h1` and `h2` in place. */
  method Cyrb53Hash(str: string, seed: nat) returns (hash: nat)
    ensures hash == Cyrb53(str, seed)
    ensures hash < 0x20_0000_0000_0000
  {
    var units := CodeUnits(str);
    var h1 := Xor32(0xdeadbeef, seed);
    var h2 := Xor32(0x41c6ce57, seed);
    for i := 0 to |units|
      invariant (h1, h2) == Absorb(units[..i], seed)
    {
      assert units[..i + 1][..i] == units[..i];
      var ch := units[i];
      h1 := Imul(Xor32(h1, ch), 2654435761);
      h2 := Imul(Xor32(h2, ch), 1597334677);
    }
    assert units[..|units|] == units;
    ghost var absorbed := (h1, h2);
    h1 := Imul(Xor32(h1, Shr(h1, 16)), 2246822507);
    h1 := Xor32(h1, Imul(Xor32(h2, Shr(h2, 13)), 3266489909));
    h2 := Imul(Xor32(h2, Shr(h2, 16)), 2246822507);
    h2 := Xor32(h2, Imul(Xor32(h1, Shr(h1, 13)), 3266489909));
    assert (h1, h2) == HashFinish(absorbed);
    hash := 4294967296 * (h2 % 0x20_0000) + h1;
  }

  /** The hash of a text depends on its code units only. */
  lemma Cyrb53CodeUnits(a: string, b: string, seed: nat)
    requires CodeUnits(a) == CodeUnits(b)
    ensures Cyrb53(a, seed) == Cyrb53(b, seed)
  {
  }

  // ---------------------------------------------------------------------------
  // Cache file names

  /** `cyrb53(s, 4)`, the hash every caller uses. */
  function UrlHash(s: string): (r: string)
    ensures |r| >= 1 && forall i :: 0 <= i < |r| ==> IsHexDigit(r[i])
  {
    HexString(Cyrb53(s, 4))
  }

  /** `getFilePathForUrl`: `<hash>_<basename>` under the global storage folder. The
      URL is taken as `Uri.parse(url).toString()` already gives it. */
  function CachePath(storage: string, url: string): string {
    JoinPath(storage, UrlHash(url) + "_" + Basename(url))
  }

  /** The cache file's name gives back the URL's hash and its basename: the hash ends at
      the first `_`. */
  lemma CacheNameParts(storage: string, url: string)
    ensures var path := CachePath(storage, url);
      var k := |UrlHash(url)|;
      |path| >= |storage| + 1 + k + 1 &&
      var name := path[|storage| + 1..];
      IndexOf(name, "_") == Some(k) &&
      HexValue(name[..k]) == Cyrb53(url, 4) &&
      name[k + 1..] == Basename(url)
  {
    var h := UrlHash(url);
    var name := h + "_" + Basename(url);
    assert CachePath(storage, url)[|storage| + 1..] == name;
    assert '_' !in h by {
      forall i | 0 <= i < |h| ensures h[i] != '_' {
        assert IsHexDigit(h[i]);
      }
    }
    IndexOfAfterPiece(h, '_', Basename(url));
    assert name[..|h|] == h;
    HexValueHexString(Cyrb53(url, 4));
  }

  // ---------------------------------------------------------------------------
  // Downloading

  /** `globalState` (string entries by key), the files written under global storage,
      and the next-download time. The next-download entry is kept apart: its key is not
      a hexadecimal hash. */
  datatype Store = Store(state: map<string, string>, files: map<string, string>, nextDownload: Option<int>)

  /** `globalState.get<string>(key) || ""` */
  function StateGet(s: Store, key: string): string {
    if key in s.state then s.state[key] else ""
  }

  /** What `fetch` and `arrayBuffer` give: the decoded text and the body's byte length,
      or `None` when either throws. */
  type Fetcher = string -> Option<(string, nat)>

  /** The outcomes of a download's I/O: the fetch of each URL, and whether
      `workspace.fs.writeFile` succeeds at each cache path. */
  datatype Io = Io(fetch: Fetcher, writes: string -> bool)

  /** `${cyrb53(text, 4)}:${buffLen}` */
  function ContentHash(text: string, byteLength: nat): string {
    UrlHash(text) + ":" + NatToString(byteLength)
  }

  /** The key under which the content hash of a URL is kept. */
  function HashKey(url: string): string {
    "cache." + UrlHash(url)
  }

  /** `downloadFile`, as written: the old hash is read under `cache.<h>` but the new one
      is stored under `<h>`. */
  function DownloadFileAsWritten(s: Store, storage: string, url: string, force: bool, io: Io)
    : (Store, Option<string>)
  {
    if !StartsWith(url, "https://") then (s, None)
    else match io.fetch(url)
      case None => (s, None)
      case Some(body) =>
        var hash := ContentHash(body.0, body.1);
        if StateGet(s, HashKey(url)) != hash || force then
          var s1 := s.(state := s.state[UrlHash(url) := hash]);
          if io.writes(CachePath(storage, url)) then (s1.(files := s1.files[CachePath(storage, url) := body.0]), Some(url))
          else (s1, None)
        else (s, None)
  }

  /** Nothing ever stores a `cache.` key, so every download of the same unchanged file
      writes it again (while the writes succeed). */
  lemma AsWrittenAlwaysRewrites(s: Store, storage: string, url: string, io: Io)
    requires StartsWith(url, "https://") && io.fetch(url).Some? && io.writes(CachePath(storage, url))
    requires HashKey(url) !in s.state
    ensures var (s1, r1) := DownloadFileAsWritten(s, storage, url, false, io);
      r1 == Some(url) && HashKey(url) !in s1.state &&
      DownloadFileAsWritten(s1, storage, url, false, io).1 == Some(url)
  {
    var body := io.fetch(url).value;
    var hash := ContentHash(body.0, body.1);
    assert hash != "" by {
      assert hash[0] == UrlHash(body.0)[0];
    }
    assert StateGet(s, HashKey(url)) == "";
    assert |HashKey(url)| != |UrlHash(url)|;
  }

  /** `downloadFile`, with the hash read and stored under the same `cache.<h>` key. */
  function DownloadFile(s: Store, storage: string, url: string, force: bool, io: Io)
    : (r: (Store, Option<string>))
    ensures !StartsWith(url, "https://") || io.fetch(url).None? ==> r == (s, None)
    ensures r.1.Some? ==> r.1.value == url && StartsWith(url, "https://")
    ensures r.1.None? ==> r.0.files == s.files
    ensures r.1.None? && io.writes(CachePath(storage, url)) ==> r.0 == s
    ensures r.0.nextDownload == s.nextDownload
  {
    if !StartsWith(url, "https://") then (s, None)
    else match io.fetch(url)
      case None => (s, None)
      case Some(body) =>
        var hash := ContentHash(body.0, body.1);
        if StateGet(s, HashKey(url)) != hash || force then
          var s1 := s.(state := s.state[HashKey(url) := hash]);
          if io.writes(CachePath(storage, url)) then (s1.(files := s1.files[CachePath(storage, url) := body.0]), Some(url))
          else (s1, None)
        else (s, None)
  }

  /** Whether a download gets as far as storing the new hash: the URL is an `https://`
      one, its fetch succeeds, and its hash changed or the download is forced. */
  predicate StoresHash(s: Store, url: string, force: bool, io: Io) {
    StartsWith(url, "https://") && io.fetch(url).Some? &&
    (force || StateGet(s, HashKey(url)) != ContentHash(io.fetch(url).value.0, io.fetch(url).value.1))
  }

  /** A file is written, and its URL returned, exactly when the download stores the new
      hash and the write succeeds; the file then holds the fetched text. The hash is
      stored before the write, so a failed write leaves the new hash and no file.
      A download that does not store the hash changes nothing. */
  lemma DownloadFileWrites(s: Store, storage: string, url: string, force: bool, io: Io)
    ensures var (s1, r) := DownloadFile(s, storage, url, force, io);
      (r.Some? <==> StoresHash(s, url, force, io) && io.writes(CachePath(storage, url))) &&
      (StoresHash(s, url, force, io) ==>
        StateGet(s1, HashKey(url)) == ContentHash(io.fetch(url).value.0, io.fetch(url).value.1)) &&
      (r.Some? ==> CachePath(storage, url) in s1.files && s1.files[CachePath(storage, url)] == io.fetch(url).value.0) &&
      (r.None? ==> s1.files == s.files) &&
      (!StoresHash(s, url, force, io) ==> s1 == s)
  {
  }

  /** After a failed write, an unforced download of the same unchanged contents is
      skipped, though the cache file was never written. */
  lemma FailedWriteSkipsLater(s: Store, storage: string, url: string, force: bool, io: Io, later: Io)
    requires StoresHash(s, url, force, io) && !io.writes(CachePath(storage, url))
    requires later.fetch(url) == io.fetch(url)
    ensures var s1 := DownloadFile(s, storage, url, force, io).0;
      CachePath(storage, url) !in s.files ==> CachePath(storage, url) !in s1.files
    ensures var s1 := DownloadFile(s, storage, url, force, io).0;
      DownloadFile(s1, storage, url, false, later) == (s1, None)
  {
    DownloadFileWrites(s, storage, url, force, io);
  }

  /** Downloading a file a second time, unchanged and unforced, writes nothing. */
  lemma SecondDownloadSkipped(s: Store, storage: string, url: string, force: bool, io: Io)
    requires DownloadFile(s, storage, url, force, io).1.Some?
    ensures var s1 := DownloadFile(s, storage, url, force, io).0;
      DownloadFile(s1, storage, url, false, io) == (s1, None)
  {
    var body := io.fetch(url).value;
    var s1 := DownloadFile(s, storage, url, force, io).0;
    assert StateGet(s1, HashKey(url)) == ContentHash(body.0, body.1);
  }

  /** `urls.map((d) => this.downloadFile(d, force))` followed by the `null` filter. The
      downloads take effect one after another, in list order. */
  function DownloadGroup(s: Store, storage: string, urls: seq<string>, force: bool, io: Io)
    : (r: (Store, seq<string>))
    ensures |r.1| <= |urls|
    ensures forall i :: 0 <= i < |r.1| ==> r.1[i] in urls && StartsWith(r.1[i], "https://")
    ensures r.0.nextDownload == s.nextDownload
    decreases |urls|
  {
    if urls == [] then (s, [])
    else
      var first := DownloadFile(s, storage, urls[0], force, io);
      var rest := DownloadGroup(first.0, storage, urls[1..], force, io);
      var head := if first.1.Some? then [urls[0]] else [];
      (rest.0, head + rest.1)
  }

  /** Whether the download of `urls[i]`, made on the store the group's earlier downloads
      left, writes its file. */
  predicate DownloadsAt(s: Store, storage: string, urls: seq<string>, force: bool, io: Io, i: nat)
    requires i < |urls|
  {
    DownloadFile(DownloadGroup(s, storage, urls[..i], force, io).0, storage, urls[i], force, io).1.Some?
  }

  /** Whether some download of the group writes its file. */
  predicate GroupDownloads(s: Store, storage: string, urls: seq<string>, force: bool, io: Io) {
    exists i :: 0 <= i < |urls| && DownloadsAt(s, storage, urls, force, io, i)
  }

  /** The turn of `urls[i]` in the group is its turn in the rest after the first. */
  lemma DownloadsAtRest(s: Store, storage: string, urls: seq<string>, force: bool, io: Io, i: nat)
    requires 1 <= i < |urls|
    ensures DownloadsAt(s, storage, urls, force, io, i) ==
      DownloadsAt(DownloadFile(s, storage, urls[0], force, io).0, storage, urls[1..], force, io, i - 1)
  {
    var front := urls[..i];
    assert front[0] == urls[0];
    assert front[1..] == urls[1..][..i - 1];
  }

  /** The group's list is its first download, if that writes, then the rest's list. */
  lemma GroupUnfold(s: Store, storage: string, urls: seq<string>, force: bool, io: Io)
    requires urls != []
    ensures var (s1, first) := DownloadFile(s, storage, urls[0], force, io);
      DownloadGroup(s, storage, urls, force, io).1 ==
        (if first.Some? then [urls[0]] else []) + DownloadGroup(s1, storage, urls[1..], force, io).1
    ensures DownloadsAt(s, storage, urls, force, io, 0) == DownloadFile(s, storage, urls[0], force, io).1.Some?
  {
    assert urls[..0] == [];
  }

  /** Every URL whose download writes at its turn is in the group's list. */
  lemma {:induction false} GroupListsDownloads(s: Store, storage: string, urls: seq<string>, force: bool, io: Io)
    ensures var r := DownloadGroup(s, storage, urls, force, io).1;
      forall i :: 0 <= i < |urls| && DownloadsAt(s, storage, urls, force, io, i) ==> urls[i] in r
    decreases |urls|
  {
    if urls != [] {
      var s1 := DownloadFile(s, storage, urls[0], force, io).0;
      var rest := DownloadGroup(s1, storage, urls[1..], force, io).1;
      var r := DownloadGroup(s, storage, urls, force, io).1;
      GroupUnfold(s, storage, urls, force, io);
      GroupListsDownloads(s1, storage, urls[1..], force, io);
      forall i | 0 <= i < |urls| && DownloadsAt(s, storage, urls, force, io, i)
        ensures urls[i] in r
      {
        if i > 0 {
          DownloadsAtRest(s, storage, urls, force, io, i);
          assert urls[1..][i - 1] in rest;
        }
      }
    }
  }

  /** The group's list is non-empty exactly when some download of the group writes. */
  lemma GroupNonEmpty(s: Store, storage: string, urls: seq<string>, force: bool, io: Io)
    ensures |DownloadGroup(s, storage, urls, force, io).1| > 0 <==> GroupDownloads(s, storage, urls, force, io)
  {
    NonEmptyHasDownload(s, storage, urls, force, io);
    if GroupDownloads(s, storage, urls, force, io) {
      var i :| 0 <= i < |urls| && DownloadsAt(s, storage, urls, force, io, i);
      GroupListsDownloads(s, storage, urls, force, io);
      assert urls[i] in DownloadGroup(s, storage, urls, force, io).1;
    }
  }

  /** A URL in the group's list was downloaded at its turn. */
  lemma {:induction false} NonEmptyHasDownload(s: Store, storage: string, urls: seq<string>, force: bool, io: Io)
    ensures |DownloadGroup(s, storage, urls, force, io).1| > 0 ==> GroupDownloads(s, storage, urls, force, io)
    decreases |urls|
  {
    if urls != [] && |DownloadGroup(s, storage, urls, force, io).1| > 0 {
      var d := DownloadFile(s, storage, urls[0], force, io);
      GroupUnfold(s, storage, urls, force, io);
      if d.1.Some? {
        assert DownloadsAt(s, storage, urls, force, io, 0);
      } else {
        NonEmptyHasDownload(d.0, storage, urls[1..], force, io);
        var j :| 0 <= j < |urls[1..]| && DownloadsAt(d.0, storage, urls[1..], force, io, j);
        DownloadsAtRest(s, storage, urls, force, io, j + 1);
        assert DownloadsAt(s, storage, urls, force, io, j + 1);
      }
    }
  }

  /** A forced download of a fetchable `https://` URL whose cache file can be written
      always lands in the list. */
  lemma ForcedDownloadListed(s: Store, storage: string, urls: seq<string>, io: Io, i: nat)
    requires i < |urls| && StartsWith(urls[i], "https://") && io.fetch(urls[i]).Some?
    requires io.writes(CachePath(storage, urls[i]))
    ensures urls[i] in DownloadGroup(s, storage, urls, true, io).1
  {
    DownloadFileWrites(DownloadGroup(s, storage, urls[..i], true, io).0, storage, urls[i], true, io);
    GroupListsDownloads(s, storage, urls, true, io);
  }

  /** A group with no `https://` URL downloads nothing. */
  lemma {:induction false} NoHttpsNoDownload(s: Store, storage: string, urls: seq<string>, force: bool, io: Io)
    requires forall i :: 0 <= i < |urls| ==> !StartsWith(urls[i], "https://")
    ensures DownloadGroup(s, storage, urls, force, io) == (s, [])
    decreases |urls|
  {
    if urls != [] {
      NoHttpsNoDownload(s, storage, urls[1..], force, io);
    }
  }

  /** The configured URLs (`getConfig(...) || []`, `getConfig(...) || ""`). */
  datatype DownloadConfig = DownloadConfig(
    lspDefs: seq<string>, lspDocs: seq<string>, snippets: seq<string>,
    seleneDocs: Option<string>, seleneToml: Option<string>)

  /** The URLs `downloadSelene` fetches, as written: the Selene library URL twice. */
  function SeleneUrlsAsWritten(cfg: DownloadConfig): seq<string> {
    [cfg.seleneDocs.GetOr(""), cfg.seleneDocs.GetOr("")]
  }

  /** As written, a `selene.toml` URL different from the library URL is never fetched. */
  lemma AsWrittenSkipsToml(cfg: DownloadConfig)
    requires cfg.seleneToml.GetOr("") != cfg.seleneDocs.GetOr("")
    ensures cfg.seleneToml.GetOr("") !in SeleneUrlsAsWritten(cfg)
  {
  }

  /** The URLs `downloadSelene` fetches: the library and the `selene.toml` URL. */
  function SeleneUrls(cfg: DownloadConfig): (r: seq<string>)
    ensures cfg.seleneDocs.GetOr("") in r && cfg.seleneToml.GetOr("") in r
  {
    [cfg.seleneDocs.GetOr(""), cfg.seleneToml.GetOr("")]
  }

  /** `DownloadResult`: whether each group downloaded anything. */
  datatype DownloadResult = DownloadResult(lsp: bool, selene: bool, snippet: bool)

  /** Two days, in seconds. */
  const RedownloadInterval: int := 60 * 60 * 24 * 2

  /** `download`, given whether downloads are enabled and the time in seconds. */
  function Download(s: Store, storage: string, cfg: DownloadConfig, enabled: bool, force: bool, now: int, io: Io)
    : (r: (Store, DownloadResult))
    ensures !enabled && !force ==> r == (s, DownloadResult(false, false, false))
    ensures enabled || force ==> r.0.nextDownload == Some(now + 172800)
  {
    if !enabled && !force then (s, DownloadResult(false, false, false))
    else
      var (s1, lsp) := DownloadGroup(s, storage, cfg.lspDefs + cfg.lspDocs, force, io);
      var (s2, selene) := DownloadGroup(s1, storage, SeleneUrls(cfg), force, io);
      var (s3, snippets) := DownloadGroup(s2, storage, cfg.snippets, force, io);
      (s3.(nextDownload := Some(now + RedownloadInterval)),
       DownloadResult(|lsp| > 0, |selene| > 0, |snippets| > 0))
  }

  /** A flag is set exactly when some download of its group writes, each group starting
      from the store the one before left; so only when the group has an `https://` URL. */
  lemma DownloadFlags(s: Store, storage: string, cfg: DownloadConfig, enabled: bool, force: bool, now: int, io: Io)
    ensures var d := Download(s, storage, cfg, enabled, force, now, io).1;
      (d.lsp ==> exists u :: u in cfg.lspDefs + cfg.lspDocs && StartsWith(u, "https://")) &&
      (d.selene ==> exists u :: u in SeleneUrls(cfg) && StartsWith(u, "https://")) &&
      (d.snippet ==> exists u :: u in cfg.snippets && StartsWith(u, "https://"))
    ensures enabled || force ==>
      var d := Download(s, storage, cfg, enabled, force, now, io).1;
      var s1 := DownloadGroup(s, storage, cfg.lspDefs + cfg.lspDocs, force, io).0;
      var s2 := DownloadGroup(s1, storage, SeleneUrls(cfg), force, io).0;
      (d.lsp <==> GroupDownloads(s, storage, cfg.lspDefs + cfg.lspDocs, force, io)) &&
      (d.selene <==> GroupDownloads(s1, storage, SeleneUrls(cfg), force, io)) &&
      (d.snippet <==> GroupDownloads(s2, storage, cfg.snippets, force, io))
  {
    if enabled || force {
      var (s1, lsp) := DownloadGroup(s, storage, cfg.lspDefs + cfg.lspDocs, force, io);
      var (s2, selene) := DownloadGroup(s1, storage, SeleneUrls(cfg), force, io);
      var (s3, snippets) := DownloadGroup(s2, storage, cfg.snippets, force, io);
      GroupNonEmpty(s, storage, cfg.lspDefs + cfg.lspDocs, force, io);
      GroupNonEmpty(s1, storage, SeleneUrls(cfg), force, io);
      GroupNonEmpty(s2, storage, cfg.snippets, force, io);
      if |lsp| > 0 {
        assert lsp[0] in cfg.lspDefs + cfg.lspDocs && StartsWith(lsp[0], "https://");
      }
      if |selene| > 0 {
        assert selene[0] in SeleneUrls(cfg) && StartsWith(selene[0], "https://");
      }
      if |snippets| > 0 {
        assert snippets[0] in cfg.snippets && StartsWith(snippets[0], "https://");
      }
    }
  }

  /** `needsDownload`: never when downloads are disabled, else once the stored time
      (`|| 0`) has passed. */
  function NeedsDownload(enabled: bool, s: Store, now: int): bool {
    enabled && s.nextDownload.GetOr(0) < now
  }

  /** After a download the next one is due two days later. */
  lemma NextDownloadAfterTwoDays(s: Store, storage: string, cfg: DownloadConfig, force: bool, now: int, t: int, io: Io)
    ensures var s1 := Download(s, storage, cfg, true, force, now, io).0;
      NeedsDownload(true, s1, t) <==> t > now + 172800
  {
  }

  // ---------------------------------------------------------------------------
  // selene.toml

  /** The built-in `selene.toml`. */
  const DefaultSeleneToml: string :=
    "std = \"sl_selene_defs\"\n\n[rules]\nglobal_usage = \"allow\"\nshadowing = \"allow\"\nmust_use = \"warn\"\n\n" +
    "[config]\nempty_if = { comments_count = true }\nunused_variable = { ignore_pattern = " +
    "\"^_|^changed$|^attached$|^on_rez$|^touch_start$|^touch_end$|^touch$|^listen$|^timer$|^http_request$|^http_response$|^link_message$\" }"

  lemma JsLengthAtLeast(s: string)
    ensures JsLength(s) >= |s|
  {
  }

  /** `getSeleneTomlFileContent`: the workspace's `selene.toml` when it is longer than 10
      characters, else the cached download when it is, else the built-in default; `None`
      is a file that is missing or cannot be read. */
  function SeleneTomlContent(hasWorkspace: bool, workspaceToml: Option<string>, cachedToml: Option<string>)
    : (r: string)
    ensures !hasWorkspace ==> r == ""
    ensures hasWorkspace && workspaceToml.Some? && JsLength(workspaceToml.value) > 10 ==> r == workspaceToml.value
    ensures hasWorkspace && (workspaceToml.None? || JsLength(workspaceToml.value) <= 10) ==>
      r == if cachedToml.Some? && JsLength(cachedToml.value) > 10 then cachedToml.value else DefaultSeleneToml
  {
    if !hasWorkspace then ""
    else if workspaceToml.Some? && JsLength(workspaceToml.value) > 10 then workspaceToml.value
    else if cachedToml.Some? && JsLength(cachedToml.value) > 10 then cachedToml.value
    else DefaultSeleneToml
  }

  /** With a workspace the content is never short, so `updateSeleneConfig` always
      writes. */
  lemma SeleneTomlContentLong(workspaceToml: Option<string>, cachedToml: Option<string>)
    ensures JsLength(SeleneTomlContent(true, workspaceToml, cachedToml)) > 10
  {
    JsLengthAtLeast(DefaultSeleneToml);
  }

  /** `l.trim().replaceAll(" ", "").replaceAll("\t", "")` */
  function Compact(l: string): string {
    ReplaceAll(ReplaceAll(Trim(l), " ", ""), "\t", "")
  }

  /** A line that sets `std`. */
  predicate IsStdLine(l: string) {
    StartsWith(Compact(l), "std=")
  }

  /** The library name written into `std`: the workspace-relative path of the
      installed file with `.yml` removed. */
  function SeleneStdName(relativePath: string): string {
    ReplaceAll(relativePath, ".yml", "")
  }

  /** A path without `.yml` is used as it is. */
  lemma SeleneStdNameKeeps(relativePath: string)
    requires !Contains(relativePath, ".yml")
    ensures SeleneStdName(relativePath) == relativePath
  {
    ReplaceAllAbsent(relativePath, ".yml", "");
  }

  /** `std = "<relative>"` */
  function StdLine(relative: string): string {
    "std = \"" + relative + "\""
  }

  /** The `.map` of `updateSeleneConfig`, for a test `isStd` of the lines that set
      `std` (`IsStdLine` in the source). */
  function RewriteLines(lines: seq<string>, isStd: string -> bool, relative: string): seq<string> {
    if lines == [] then []
    else
      var l := Last(lines);
      RewriteLines(lines[..|lines| - 1], isStd, relative) + [if isStd(l) then StdLine(relative) else l]
  }

  /** Every line that sets `std` becomes `std = "<relative>"`; every other stays. */
  lemma {:induction false} RewriteLinesAt(lines: seq<string>, isStd: string -> bool, relative: string)
    ensures |RewriteLines(lines, isStd, relative)| == |lines|
    ensures forall i :: 0 <= i < |lines| ==>
      RewriteLines(lines, isStd, relative)[i] == if isStd(lines[i]) then StdLine(relative) else lines[i]
    decreases |lines|
  {
    if lines != [] {
      var front := lines[..|lines| - 1];
      RewriteLinesAt(front, isStd, relative);
      assert forall i :: 0 <= i < |front| ==> front[i] == lines[i];
    }
  }

  predicate HasStdLine(lines: seq<string>, isStd: string -> bool) {
    exists i :: 0 <= i < |lines| && isStd(lines[i])
  }

  /** The content `updateSeleneConfig` writes, or `None` when it returns early because
      the rewritten text is empty. */
  function UpdatedToml(content: string, isStd: string -> bool, relative: string): Option<string> {
    var lines := Split(content, "\n");
    var toml := Join(RewriteLines(lines, isStd, relative), "\n");
    if JsLength(toml) < 1 then None
    else if HasStdLine(lines, isStd) then Some(toml)
    else Some(StdLine(relative) + "\n" + toml)
  }

  /** The step of the rewrite loop. */
  lemma RewriteStep(lines: seq<string>, i: nat, isStd: string -> bool, relative: string)
    requires i < |lines|
    ensures RewriteLines(lines[..i + 1], isStd, relative) ==
      RewriteLines(lines[..i], isStd, relative) + [if isStd(lines[i]) then StdLine(relative) else lines[i]]
    ensures HasStdLine(lines[..i + 1], isStd) <==> HasStdLine(lines[..i], isStd) || isStd(lines[i])
  {
    var front := lines[..i + 1];
    assert front[..i] == lines[..i] && Last(front) == lines[i];
    assert forall j :: 0 <= j < i ==> front[j] == lines[..i][j];
  }

  /** The rewrite of `updateSeleneConfig`: the mapped lines and the `replaced` flag the
      callback sets. */
  method RewriteStd(lines: seq<string>, relative: string) returns (out: seq<string>, replaced: bool)
    ensures out == RewriteLines(lines, IsStdLine, relative)
    ensures replaced <==> HasStdLine(lines, IsStdLine)
  {
    out := [];
    replaced := false;
    for i := 0 to |lines|
      invariant out == RewriteLines(lines[..i], IsStdLine, relative)
      invariant replaced <==> HasStdLine(lines[..i], IsStdLine)
    {
      RewriteStep(lines, i, IsStdLine, relative);
      var l := lines[i];
      if IsStdLine(l) {
        replaced := true;
        out := out + [StdLine(relative)];
      } else {
        out := out + [l];
      }
    }
    assert lines[..|lines|] == lines;
  }

  /** `updateSeleneConfig` once the content is known: rewrite, the early return on an
      empty text, and the prepended line when nothing was replaced. */
  method UpdateSeleneToml(content: string, relative: string) returns (toml: Option<string>)
    ensures toml == UpdatedToml(content, IsStdLine, relative)
  {
    var lines, replaced := RewriteStd(Split(content, "\n"), relative);
    var text := Join(lines, "\n");
    if JsLength(text) < 1 {
      return None;
    }
    if !replaced {
      text := StdLine(relative) + "\n" + text;
    }
    return Some(text);
  }

  /** When a line set `std`, the written file has the same lines, with each such line
      set to the new library. */
  lemma UpdatedTomlReplaces(content: string, isStd: string -> bool, relative: string)
    requires '\n' !in relative
    requires HasStdLine(Split(content, "\n"), isStd)
    ensures UpdatedToml(content, isStd, relative).Some?
    ensures var out := Split(UpdatedToml(content, isStd, relative).value, "\n");
      var lines := Split(content, "\n");
      |out| == |lines| &&
      forall i :: 0 <= i < |lines| ==> out[i] == if isStd(lines[i]) then StdLine(relative) else lines[i]
  {
    var lines := Split(content, "\n");
    var rewritten := RewriteLines(lines, isStd, relative);
    RewriteLinesAt(lines, isStd, relative);
    SplitPiecesAvoidChar(content, '\n');
    var i :| 0 <= i < |lines| && isStd(lines[i]);
    assert rewritten[i] == StdLine(relative);
    assert forall k :: 0 <= k < |rewritten| ==> '\n' !in rewritten[k] by {
      forall k | 0 <= k < |rewritten| ensures '\n' !in rewritten[k] {
        if isStd(lines[k]) {
          StdLineOneLine(relative);
        }
      }
    }
    SplitJoin(rewritten, '\n');
    JoinHolds(rewritten, i, "\n");
  }

  lemma StdLineOneLine(relative: string)
    requires '\n' !in relative
    ensures '\n' !in StdLine(relative)
  {
  }

  /** A join contains each of its parts, so it is non-empty when a part is. */
  lemma {:induction false} JoinHolds(parts: seq<string>, i: nat, sep: string)
    requires i < |parts| && parts[i] != ""
    ensures JsLength(Join(parts, sep)) >= 1
    decreases |parts|
  {
    JsLengthAtLeast(Join(parts, sep));
    if i > 0 {
      JoinHolds(parts[1..], i - 1, sep);
      JsLengthAtLeast(Join(parts[1..], sep));
      JoinLength(parts, sep);
    } else {
      JoinLength(parts, sep);
    }
  }

  lemma JoinLength(parts: seq<string>, sep: string)
    requires |parts| >= 1
    ensures |Join(parts, sep)| >= |parts[0]|
    ensures |parts| >= 2 ==> |Join(parts, sep)| >= |Join(parts[1..], sep)|
  {
  }

  /** When no line set `std`, the file is the old content with exactly one `std` line
      in front (and nothing is written for an empty file). */
  lemma UpdatedTomlPrepends(content: string, isStd: string -> bool, relative: string)
    requires !HasStdLine(Split(content, "\n"), isStd)
    ensures UpdatedToml(content, isStd, relative) ==
      if content == "" then None else Some(StdLine(relative) + "\n" + content)
  {
    var lines := Split(content, "\n");
    RewriteLinesAt(lines, isStd, relative);
    assert RewriteLines(lines, isStd, relative) == lines;
    JoinSplit(content, "\n");
    JsLengthEmpty(content);
  }

  // ---------------------------------------------------------------------------
  // Install location

  /** `getPathForDefFileInstall`: `choice` is the configured location (`None` when
      unset), `cached` the cache file, `workspace` the first workspace folder. `None`
      is the `false` result. */
  function InstallPath(choice: Option<string>, selene: bool, cached: string, url: string, workspace: Option<string>)
    : (r: Option<string>)
    ensures choice.None? || choice.value == "" ==> r.None?
  {
    if choice.None? || choice.value == "" then None
    else
      var c := if selene && choice.value == "global" then "root" else choice.value;
      if c == "global" then Some(cached)
      else if workspace.None? then None
      else
        var base := Basename(url);
        var wf := workspace.value;
        if c == "root" then Some(JoinPath(wf, base))
        else if c == "types" then Some(JoinPath(JoinPath(wf, ".types"), base))
        else if c == "vscode" then Some(JoinPath(JoinPath(wf, ".vscode"), base))
        else None
  }

  /** The global cache is used only for non-Selene files with the `global` choice;
      every other location is the URL's basename inside the workspace folder. */
  lemma InstallPathPlaces(choice: Option<string>, selene: bool, cached: string, url: string, workspace: Option<string>)
    ensures var r := InstallPath(choice, selene, cached, url, workspace);
      (choice == Some("global") && !selene ==> r == Some(cached)) &&
      (r.Some? && (selene || choice != Some("global")) ==>
        workspace.Some? && StartsWith(r.value, workspace.value + "/") && EndsWith(r.value, "/" + Basename(url)))
  {
    var r := InstallPath(choice, selene, cached, url, workspace);
    if r.Some? && (selene || choice != Some("global")) {
      var wf := workspace.value;
      var base := Basename(url);
      var c := if selene && choice.value == "global" then "root" else choice.value;
      if c == "root" {
        InFolder(wf, base);
      } else {
        InSubfolder(wf, if c == "types" then ".types" else ".vscode", base);
      }
    }
  }

  /** `<folder>/<name>` starts with the folder and ends with the name. */
  lemma InFolder(folder: string, name: string)
    ensures StartsWith(JoinPath(folder, name), folder + "/")
    ensures EndsWith(JoinPath(folder, name), "/" + name)
  {
    var path := JoinPath(folder, name);
    assert path[..|folder| + 1] == folder + "/";
    assert path == folder + ("/" + name);
  }

  lemma InSubfolder(folder: string, sub: string, name: string)
    ensures StartsWith(JoinPath(JoinPath(folder, sub), name), folder + "/")
    ensures EndsWith(JoinPath(JoinPath(folder, sub), name), "/" + name)
  {
    InFolder(JoinPath(folder, sub), name);
    var path := JoinPath(JoinPath(folder, sub), name);
    assert path[..|folder| + 1] == folder + "/";
  }

  /** A choice the configuration does not define installs nothing. */
  lemma UnknownChoiceInstallsNothing(choice: string, selene: bool, cached: string, url: string, workspace: Option<string>)
    requires choice !in {"", "global", "root", "types", "vscode"}
    ensures InstallPath(Some(choice), selene, cached, url, workspace).None?
  {
  }
}
