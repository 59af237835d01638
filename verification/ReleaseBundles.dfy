/** Static release bundles: their manifest, its checks, and the comparison of files with it. */
module ReleaseBundles {
  import opened Bytes
  import opened Texts
  import opened Wrappers

  type Data = seq<byte>

  datatype FileEntry = FileEntry(size: nat, digest: string)

  /** A manifest entry as stored; None is an absent member or one of another type. */
  datatype RawEntry = RawEntry(path: Option<string>, size: Option<int>, digest: Option<string>)

  /** A manifest as stored. `formOk` is the check of its schema, kind and flags. */
  datatype Manifest = Manifest(formOk: bool, commit: Option<string>, entries: seq<RawEntry>, totalFiles: Option<int>,
                               totalBytes: Option<int>)

  type Entries = map<string, FileEntry>

  type Files = map<string, Data>

  datatype Error =
    | ManifestMissing | ManifestInvalid | CommitMismatch | PathInvalid | SecretFile | SizeLimit | FileSetMismatch
    | TotalsMismatch | FileMismatch | TreeRefused | WebCopyMismatch | StagingExists | StoredManifestMismatch
    | LinkInvalid | RollbackUnavailable | RollbackTargetInvalid | ConfirmationMismatch

  const MAX_FILES: nat := 50_000
  const MAX_TOTAL_BYTES: nat := 2 * 1024 * 1024 * 1024
  const WEB: string := "web/"

  const REQUIRED: set<string> := {
    "web/index.html", "web/app.html", "web/config.js", "web/payment/success.html", "web/payment/fail.html",
    "web/web-deployment-manifest.json"}

  const FORBIDDEN_NAMES: seq<string> := [".env", ".env.local", ".npmrc", "id_rsa", "id_ed25519"]
  const FORBIDDEN_SUFFIXES: seq<string> := [".pem", ".key", ".p12", ".pfx"]

  // ---- Names ---------------------------------------------------------------------------------

  function ToLower(s: string): string {
    seq(|s|, i requires 0 <= i < |s| => if 'A' <= s[i] <= 'Z' then (s[i] as int + 32) as char else s[i])
  }

  /** The last part of a path that is neither empty nor `.`. */
  function FileName(parts: seq<string>): string {
    if parts == [] then ""
    else
      var last := parts[|parts| - 1];
      if last == "" || last == "." then FileName(parts[..|parts| - 1]) else last
  }

  predicate HasSuffix(s: string, suffix: string) {
    |suffix| <= |s| && s[|s| - |suffix|..] == suffix
  }

  predicate IsSecret(name: string) {
    var file := ToLower(FileName(Split(name, '/')));
    file in FORBIDDEN_NAMES || exists suffix | suffix in FORBIDDEN_SUFFIXES :: HasSuffix(file, suffix)
  }

  predicate IsSafeName(name: string) {
    name != "" && '\\' !in name && name[0] != '/' && ".." !in Split(name, '/')
  }

  predicate IsHex(s: string, length: nat) {
    |s| == length && forall i :: 0 <= i < |s| ==> '0' <= s[i] <= '9' || 'a' <= s[i] <= 'f'
  }

  // ---- The manifest --------------------------------------------------------------------------

  /** One more entry on the index and the running total, or the error it raises. */
  function IndexOne(index: Entries, total: nat, e: RawEntry): Result<(Entries, nat), Error> {
    if e.path == None || !IsSafeName(e.path.value) then Err(PathInvalid)
    else if IsSecret(e.path.value) then Err(SecretFile)
    else if e.path.value in index || e.size == None || e.size.value < 0 || e.digest == None
         || !IsHex(e.digest.value, 64)
    then Err(ManifestInvalid)
    else if total + e.size.value > MAX_TOTAL_BYTES then Err(SizeLimit)
    else Ok((index[e.path.value := FileEntry(e.size.value, e.digest.value)], total + e.size.value))
  }

  function IndexAll(entries: seq<RawEntry>): Result<(Entries, nat), Error> {
    if entries == [] then Ok((map[], 0))
    else
      var n := |entries| - 1;
      var before := IndexAll(entries[..n]);
      if before.Err? then before else IndexOne(before.value.0, before.value.1, entries[n])
  }

  /** The checked index of a manifest. */
  function Validated(m: Manifest, expected: Option<string>): Result<Entries, Error> {
    if !m.formOk || m.commit == None || !IsHex(m.commit.value, 40) then Err(ManifestInvalid)
    else if expected.Some? && m.commit.value != ToLower(expected.value) then Err(CommitMismatch)
    else
      var indexed := IndexAll(m.entries);
      if indexed.Err? then Err(indexed.error)
      else if !(REQUIRED <= indexed.value.0.Keys) then Err(FileSetMismatch)
      else if m.totalFiles != Some(|indexed.value.0|) || m.totalBytes != Some(indexed.value.1) then Err(TotalsMismatch)
      else Ok(indexed.value.0)
  }

  lemma {:induction false} IndexStops(entries: seq<RawEntry>, n: nat)
    requires n <= |entries| && IndexAll(entries[..n]).Err?
    ensures IndexAll(entries) == IndexAll(entries[..n])
    decreases |entries|
  {
    if n < |entries| {
      assert entries[..|entries| - 1][..n] == entries[..n];
      IndexStops(entries[..|entries| - 1], n);
    } else {
      assert entries[..n] == entries;
    }
  }

  /** Fills the index and adds up the total entry by entry. */
  method IndexEntries(entries: seq<RawEntry>) returns (r: Result<(Entries, nat), Error>)
    ensures r == IndexAll(entries)
  {
    var index: Entries, total := map[], 0;
    for k := 0 to |entries|
      invariant IndexAll(entries[..k]) == Ok((index, total))
    {
      assert entries[..k + 1][..k] == entries[..k];
      var next := IndexOne(index, total, entries[k]);
      if next.Err? {
        IndexStops(entries, k + 1);
        return Err(next.error);
      }
      index, total := next.value.0, next.value.1;
    }
    assert entries[..|entries|] == entries;
    return Ok((index, total));
  }

  ghost predicate IsIndexed(index: Entries, e: RawEntry) {
    && e.path.Some? && e.size.Some? && e.digest.Some? && e.size.value >= 0
    && e.path.value in index && index[e.path.value] == FileEntry(e.size.value, e.digest.value)
  }

  function TotalSize(entries: seq<RawEntry>): int {
    if entries == [] then 0
    else
      TotalSize(entries[..|entries| - 1])
      + if entries[|entries| - 1].size.Some? then entries[|entries| - 1].size.value else 0
  }

  /** Every entry is on the index as listed. */
  lemma {:induction false} IndexHolds(entries: seq<RawEntry>, i: nat)
    requires IndexAll(entries).Ok? && i < |entries|
    ensures IsIndexed(IndexAll(entries).value.0, entries[i])
    decreases |entries|
  {
    var n := |entries| - 1;
    if i < n {
      IndexHolds(entries[..n], i);
      assert entries[..n][i] == entries[i];
    }
  }

  ghost predicate Names(entries: seq<RawEntry>, name: string) {
    exists i :: 0 <= i < |entries| && entries[i].path == Some(name)
  }

  /** The index holds exactly the listed names, and only safe ones. */
  lemma {:induction false} IndexNames(entries: seq<RawEntry>, name: string)
    requires IndexAll(entries).Ok?
    ensures name in IndexAll(entries).value.0 <==> Names(entries, name)
    ensures name in IndexAll(entries).value.0 ==> IsSafeName(name) && !IsSecret(name)
    decreases |entries|
  {
    if entries != [] {
      var n := |entries| - 1;
      IndexNames(entries[..n], name);
      if Names(entries[..n], name) {
        var i :| 0 <= i < n && entries[..n][i].path == Some(name);
        assert entries[i].path == Some(name);
      }
      if i :| 0 <= i < n && entries[i].path == Some(name) {
        assert entries[..n][i].path == Some(name);
      }
      assert entries[n].path == Some(name) ==> Names(entries, name);
    }
  }

  /** No name is listed twice, and the total is the listed sizes', within the limit. */
  lemma {:induction false} IndexSize(entries: seq<RawEntry>)
    requires IndexAll(entries).Ok?
    ensures var (index, total) := IndexAll(entries).value;
            |index| == |entries| && total == TotalSize(entries) && total <= MAX_TOTAL_BYTES
    decreases |entries|
  {
    if entries != [] {
      var n := |entries| - 1;
      IndexSize(entries[..n]);
      var before := IndexAll(entries[..n]).value.0;
      assert IndexAll(entries).value.0.Keys == before.Keys + {entries[n].path.value};
    }
  }

  // ---- What a valid manifest is --------------------------------------------------------------

  ghost predicate IsBlank(part: string) {
    part == "" || part == "."
  }

  ghost predicate IsLastAt(parts: seq<string>, file: string, k: nat) {
    k < |parts| && parts[k] == file && forall l :: k < l < |parts| ==> IsBlank(parts[l])
  }

  /** `file` is the last part of the path that is neither empty nor `.`. */
  ghost predicate IsLastPart(parts: seq<string>, file: string) {
    !IsBlank(file) && exists k: nat :: IsLastAt(parts, file, k)
  }

  /** A name that a bundle may hold: relative, without backslash or parent segment, and not a secret file in any
      case. */
  ghost predicate MayBeListed(name: string) {
    && name != "" && name[0] != '/' && '\\' !in name
    && (forall k :: 0 <= k < |Split(name, '/')| ==> Split(name, '/')[k] != "..")
    && forall file :: IsLastPart(Split(name, '/'), file) ==>
         var lower := ToLower(file);
         && lower != ".env" && lower != ".env.local" && lower != ".npmrc" && lower != "id_rsa" && lower != "id_ed25519"
         && !(|lower| >= 4 && lower[|lower| - 4..] in {".pem", ".key", ".p12", ".pfx"})
  }

  lemma LowersLetters(s: string)
    ensures |ToLower(s)| == |s|
    ensures ToLower("ABCDEFGHIJKLMNOPQRSTUVWXYZ") == "abcdefghijklmnopqrstuvwxyz"
    ensures forall i :: 0 <= i < |s| && !('A' <= s[i] <= 'Z') ==> ToLower(s)[i] == s[i]
  {
  }

  lemma BlankEnds(parts: seq<string>, n: nat, file: string)
    requires |parts| == n + 1 && IsBlank(parts[n])
    ensures IsLastPart(parts, file) <==> IsLastPart(parts[..n], file)
  {
    if k: nat :| !IsBlank(file) && IsLastAt(parts, file, k) {
      assert IsLastAt(parts[..n], file, k);
    }
    if k: nat :| IsLastAt(parts[..n], file, k) {
      assert parts[..n][k] == parts[k] && forall l :: k < l < n ==> parts[..n][l] == parts[l];
      assert IsLastAt(parts, file, k);
    }
  }

  lemma {:induction false} FileNameIsLast(parts: seq<string>, file: string)
    ensures IsLastPart(parts, file) <==> file != "" && FileName(parts) == file
    decreases |parts|
  {
    if parts != [] {
      var n := |parts| - 1;
      if IsBlank(parts[n]) {
        BlankEnds(parts, n, file);
        FileNameIsLast(parts[..n], file);
      } else {
        assert IsLastAt(parts, parts[n], n);
        assert forall k: nat :: k < n ==> !IsLastAt(parts, file, k);
      }
    }
  }

  lemma SecretIsExact(file: string)
    ensures file in FORBIDDEN_NAMES || (exists suffix :: suffix in FORBIDDEN_SUFFIXES && HasSuffix(file, suffix)) <==>
              || file == ".env" || file == ".env.local" || file == ".npmrc" || file == "id_rsa" || file == "id_ed25519"
              || (|file| >= 4 && file[|file| - 4..] in {".pem", ".key", ".p12", ".pfx"})
  {
    assert FORBIDDEN_SUFFIXES[0] == ".pem" && FORBIDDEN_SUFFIXES[1] == ".key";
    assert FORBIDDEN_SUFFIXES[2] == ".p12" && FORBIDDEN_SUFFIXES[3] == ".pfx";
    assert |file| >= 4 && file[|file| - 4..] == ".pem" ==> HasSuffix(file, FORBIDDEN_SUFFIXES[0]);
    assert |file| >= 4 && file[|file| - 4..] == ".key" ==> HasSuffix(file, FORBIDDEN_SUFFIXES[1]);
    assert |file| >= 4 && file[|file| - 4..] == ".p12" ==> HasSuffix(file, FORBIDDEN_SUFFIXES[2]);
    assert |file| >= 4 && file[|file| - 4..] == ".pfx" ==> HasSuffix(file, FORBIDDEN_SUFFIXES[3]);
  }

  /** The two checks of a name accept exactly those. */
  lemma NamesAreExact(name: string)
    ensures IsSafeName(name) && !IsSecret(name) <==> MayBeListed(name)
  {
    var parts := Split(name, '/');
    forall file
      ensures IsLastPart(parts, file) <==> file != "" && FileName(parts) == file
    {
      FileNameIsLast(parts, file);
    }
    SecretIsExact(ToLower(FileName(parts)));
    assert ToLower("") == "";
    assert IsSafeName(name) <==>
           name != "" && name[0] != '/' && '\\' !in name && forall k :: 0 <= k < |parts| ==> parts[k] != "..";
    assert FileName(parts) != "" ==> IsLastPart(parts, FileName(parts));
  }

  /** A well-formed entry of the manifest. */
  ghost predicate IsEntry(e: RawEntry) {
    && e.path.Some? && MayBeListed(e.path.value) && e.size.Some? && e.size.value >= 0
    && e.digest.Some? && |e.digest.value| == 64
    && forall i :: 0 <= i < 64 ==> '0' <= e.digest.value[i] <= '9' || 'a' <= e.digest.value[i] <= 'f'
  }

  ghost predicate AreEntries(entries: seq<RawEntry>) {
    && (forall i :: 0 <= i < |entries| ==> IsEntry(entries[i]))
    && forall i, j :: 0 <= i < j < |entries| ==> entries[i].path != entries[j].path
  }

  lemma IndexOneIsExact(index: Entries, total: nat, e: RawEntry)
    ensures IndexOne(index, total, e).Ok? <==>
              IsEntry(e) && e.path.value !in index && total + e.size.value <= 2_147_483_648
  {
    if e.path.Some? {
      NamesAreExact(e.path.value);
    }
  }

  lemma AreEntriesNext(entries: seq<RawEntry>, n: nat)
    requires |entries| == n + 1
    ensures AreEntries(entries) <==>
              && AreEntries(entries[..n]) && IsEntry(entries[n])
              && !Names(entries[..n], if entries[n].path.Some? then entries[n].path.value else "")
  {
    var before := entries[..n];
    assert forall i :: 0 <= i < n ==> before[i] == entries[i];
    if AreEntries(entries) {
      forall i | 0 <= i < n
        ensures IsEntry(before[i])
      {
        assert IsEntry(entries[i]);
      }
      assert IsEntry(entries[n]);
      assert !exists i :: 0 <= i < n && before[i].path == Some(entries[n].path.value);
    }
  }

  /** The index can be filled exactly for well-formed entries with distinct names and at most 2 GiB in all. */
  lemma {:induction false} IndexIsExact(entries: seq<RawEntry>)
    ensures IndexAll(entries).Ok? <==> AreEntries(entries) && TotalSize(entries) <= 2_147_483_648
    decreases |entries|
  {
    if entries != [] {
      var n := |entries| - 1;
      var e := entries[n];
      IndexIsExact(entries[..n]);
      AreEntriesNext(entries, n);
      if IndexAll(entries[..n]).Ok? {
        var (index, total) := IndexAll(entries[..n]).value;
        IndexSize(entries[..n]);
        IndexNames(entries[..n], if e.path.Some? then e.path.value else "");
        IndexOneIsExact(index, total, e);
      }
    }
  }

  ghost predicate HasPages(entries: seq<RawEntry>) {
    && Names(entries, "web/index.html") && Names(entries, "web/app.html") && Names(entries, "web/config.js")
    && Names(entries, "web/payment/success.html") && Names(entries, "web/payment/fail.html")
    && Names(entries, "web/web-deployment-manifest.json")
  }

  /** 40 lower-case hexadecimal digits. */
  ghost predicate IsCommit(commit: Option<string>) {
    && commit.Some? && |commit.value| == 40
    && forall i :: 0 <= i < 40 ==> '0' <= commit.value[i] <= '9' || 'a' <= commit.value[i] <= 'f'
  }

  /** A well-formed manifest: a commit, well-formed entries of at most 2 GiB with the six required pages among them, and
      the right totals. */
  ghost predicate IsManifest(m: Manifest) {
    && m.formOk && IsCommit(m.commit) && AreEntries(m.entries) && TotalSize(m.entries) <= 2_147_483_648
    && HasPages(m.entries)
    && m.totalFiles == Some(|m.entries|) && m.totalBytes == Some(TotalSize(m.entries))
  }

  lemma RequiredAreListed(entries: seq<RawEntry>)
    requires IndexAll(entries).Ok?
    ensures REQUIRED <= IndexAll(entries).value.0.Keys <==> HasPages(entries)
  {
    forall name
      ensures name in IndexAll(entries).value.0 <==> Names(entries, name)
    {
      IndexNames(entries, name);
    }
    assert "web/index.html" in REQUIRED && "web/app.html" in REQUIRED && "web/config.js" in REQUIRED;
    assert "web/payment/success.html" in REQUIRED && "web/payment/fail.html" in REQUIRED;
    assert "web/web-deployment-manifest.json" in REQUIRED;
  }

  lemma CommitIsExact(commit: Option<string>)
    ensures commit.Some? && IsHex(commit.value, 40) <==> IsCommit(commit)
  {
  }

  /** The tests of the validation, one after another. */
  lemma ValidatedTests(m: Manifest, expected: Option<string>, indexed: Result<(Entries, nat), Error>)
    requires indexed == IndexAll(m.entries)
    ensures Validated(m, expected).Ok? <==>
              && m.formOk && m.commit.Some? && IsHex(m.commit.value, 40)
              && (expected.Some? ==> m.commit.value == ToLower(expected.value))
              && indexed.Ok? && REQUIRED <= indexed.value.0.Keys
              && m.totalFiles == Some(|indexed.value.0|) && m.totalBytes == Some(indexed.value.1)
  {
  }

  /** Validation accepts exactly the well-formed manifests of the expected commit. */
  lemma ValidatedIsExact(m: Manifest, expected: Option<string>)
    ensures Validated(m, expected).Ok? <==>
              IsManifest(m) && (expected.Some? ==> m.commit == Some(ToLower(expected.value)))
  {
    var indexed := IndexAll(m.entries);
    ValidatedTests(m, expected, indexed);
    CommitIsExact(m.commit);
    IndexIsExact(m.entries);
    if indexed.Ok? {
      IndexSize(m.entries);
      RequiredAreListed(m.entries);
    }
  }

  /** Checks the fields, the entries and the totals. */
  method ValidateManifest(m: Manifest, expected: Option<string>) returns (r: Result<Entries, Error>)
    ensures r == Validated(m, expected)
    ensures r.Ok? <==> IsManifest(m) && (expected.Some? ==> m.commit == Some(ToLower(expected.value)))
    ensures r.Ok? ==> forall name :: name in r.value <==> Names(m.entries, name)
    ensures r.Ok? ==> forall i :: 0 <= i < |m.entries| ==> IsIndexed(r.value, m.entries[i])
  {
    ValidatedIsExact(m, expected);
    if !m.formOk || m.commit == None || !IsHex(m.commit.value, 40) {
      return Err(ManifestInvalid);
    }
    if expected.Some? && m.commit.value != ToLower(expected.value) {
      return Err(CommitMismatch);
    }
    var indexed := IndexEntries(m.entries);
    if indexed.Err? {
      return Err(indexed.error);
    }
    var (index, total) := indexed.value;
    if !(REQUIRED <= index.Keys) {
      return Err(FileSetMismatch);
    }
    if m.totalFiles != Some(|index|) || m.totalBytes != Some(total) {
      return Err(TotalsMismatch);
    }
    forall name
      ensures name in index <==> Names(m.entries, name)
    {
      IndexNames(m.entries, name);
    }
    forall i | 0 <= i < |m.entries|
      ensures IsIndexed(index, m.entries[i])
    {
      IndexHolds(m.entries, i);
    }
    return Ok(index);
  }

  // ---- Comparing files -----------------------------------------------------------------------

  predicate IsListed(hash: Data -> string, entries: Entries, name: string, data: Data) {
    name in entries && |data| == entries[name].size && hash(data) == entries[name].digest
  }

  /** The directory walk refuses unsafe names and too many files. */
  predicate IsTree(files: Files) {
    |files| <= MAX_FILES && forall name | name in files :: IsSafeName(name) && !IsSecret(name)
  }

  /** The walk over a bundle also counts the manifest file, which `files` leaves out. */
  predicate IsBundleTree(manifest: Option<Manifest>, files: Files) {
    IsTree(files) && (manifest.Some? ==> |files| + 1 <= MAX_FILES)
  }

  /** The bundle holds exactly the listed files. */
  ghost predicate BundleMatches(hash: Data -> string, files: Files, entries: Entries) {
    && files.Keys == entries.Keys
    && forall name :: name in files ==> entries[name] == FileEntry(|files[name]|, hash(files[name]))
  }

  function Below(name: string): string {
    WEB + name
  }

  /** A web copy holds exactly the listed files below `web/`. */
  ghost predicate WebMatches(hash: Data -> string, files: Files, entries: Entries) {
    && (forall name :: name in files <==> Below(name) in entries)
    && forall name :: name in files ==> entries["web/" + name] == FileEntry(|files[name]|, hash(files[name]))
  }

  lemma BelowWeb(name: string)
    ensures Below(name) == "web/" + name
    ensures WEB <= Below(name) && Below(name)[|WEB|..] == name
    ensures WEB <= name ==> Below(name[|WEB|..]) == name
  {
    if WEB <= name {
      assert WEB + name[|WEB|..] == name;
    }
  }

  function WebNames(files: Files): set<string> {
    set full | full in files && WEB <= full :: full[|WEB|..]
  }

  /** The bundle's files below `web/`, under their names there. */
  function WebPart(files: Files): Files {
    map name | name in WebNames(files) && Below(name) in files :: files[Below(name)]
  }

  lemma WebPartHolds(files: Files, name: string)
    ensures name in WebPart(files) <==> Below(name) in files
    ensures name in WebPart(files) ==> WebPart(files)[name] == files[Below(name)]
  {
    if Below(name) in files {
      assert Below(name)[|WEB|..] == name;
    }
  }

  /** The web part of a matching bundle is a matching web copy. */
  lemma WebPartMatches(hash: Data -> string, files: Files, entries: Entries)
    requires BundleMatches(hash, files, entries)
    ensures WebMatches(hash, WebPart(files), entries)
  {
    forall name
      ensures name in WebPart(files) <==> Below(name) in entries
      ensures name in WebPart(files) ==> IsListed(hash, entries, Below(name), WebPart(files)[name])
    {
      WebPartHolds(files, name);
    }
  }
}
