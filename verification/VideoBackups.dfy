/** The content-addressed backup store of local lesson videos: its files, its manifests, and the file steps of each
    command. Temporary files are outside the model: a replace is one atomic step. */
module VideoBackups {
  import opened Bytes
  import opened Wrappers

  type Data = seq<byte>

  /** One listed video. */
  datatype Entry = Entry(name: string, size: nat, digest: string)

  /** A manifest entry as stored; None is an absent member or one of another type. */
  datatype RawEntry = RawEntry(name: Option<string>, size: Option<int>, digest: Option<string>)

  type Manifest = seq<RawEntry>

  /** The backup root and the source directory. Manifests are keyed by their time in microseconds. */
  datatype State = State(
    objects: map<string, Data>,
    manifests: map<int, Manifest>,
    latest: Option<Manifest>,
    source: map<string, Data>)

  datatype Error =
    | SourceInvalid | DiskCritical | SourceUnreadable
    | ObjectMissing | ObjectHashMismatch | CopyVerificationFailed
    | ManifestNotFound | ManifestEntryInvalid | TimestampFuture | RetentionInvalid | ConfirmationRequired

  // ---- Names and manifest entries ------------------------------------------------------------

  predicate IsIdChar(c: char) {
    'A' <= c <= 'Z' || '0' <= c <= '9'
  }

  predicate IsLessonId(s: string) {
    3 <= |s| <= 40 && IsIdChar(s[0]) && forall i :: 1 <= i < |s| ==> IsIdChar(s[i]) || s[i] == '-'
  }

  predicate IsDigest(s: string) {
    |s| == 64 && forall i :: 0 <= i < |s| ==> '0' <= s[i] <= '9' || 'a' <= s[i] <= 'f'
  }

  /** The file name up to its last four characters. */
  function Stem(name: string): string {
    if |name| < 4 then "" else name[..|name| - 4]
  }

  /** Ends in `.mp4` in lower case. */
  predicate IsPlainMp4(name: string) {
    |name| >= 4 && name[|name| - 4..] == ".mp4"
  }

  /** Has the suffix `.mp4` in any case. */
  predicate IsMp4(name: string) {
    |name| > 4 && name[|name| - 4] == '.' && name[|name| - 3] in "mM" && name[|name| - 2] in "pP"
      && name[|name| - 1] == '4'
  }

  predicate ValidEntry(r: RawEntry) {
    && r.name.Some? && IsPlainMp4(r.name.value) && IsLessonId(Stem(r.name.value))
    && r.size.Some? && r.size.value > 0
    && r.digest.Some? && IsDigest(r.digest.value)
  }

  predicate DistinctNames(m: Manifest) {
    forall i, j | 0 <= i < |m| && 0 <= j < |m| :: i < j ==> m[i].name != m[j].name
  }

  /** Every entry is well formed and no name is listed twice. */
  predicate ValidManifest(m: Manifest) {
    (forall i | 0 <= i < |m| :: ValidEntry(m[i])) && DistinctNames(m)
  }

  function EntryOf(r: RawEntry): Entry
    requires ValidEntry(r)
  {
    Entry(r.name.value, r.size.value, r.digest.value)
  }

  function RawOf(e: Entry): RawEntry {
    RawEntry(Some(e.name), Some(e.size), Some(e.digest))
  }

  function Written(files: seq<Entry>): Manifest {
    seq(|files|, i requires 0 <= i < |files| => RawOf(files[i]))
  }

  /** The entries of a valid manifest. */
  function Validated(m: Manifest): Option<seq<Entry>> {
    if ValidManifest(m) then Some(seq(|m|, i requires 0 <= i < |m| => EntryOf(m[i]))) else None
  }

  /** The names listed so far. */
  ghost predicate AreNames(names: set<Option<string>>, m: Manifest) {
    && (forall i :: 0 <= i < |m| ==> m[i].name in names)
    && (forall n :: n in names ==> exists i :: 0 <= i < |m| && m[i].name == n)
  }

  lemma NewName(names: set<Option<string>>, m: Manifest, k: nat)
    requires k < |m| && AreNames(names, m[..k]) && DistinctNames(m[..k])
    ensures m[k].name in names ==> !DistinctNames(m)
    ensures m[k].name !in names ==> AreNames(names + {m[k].name}, m[..k + 1]) && DistinctNames(m[..k + 1])
  {
    assert m[..k + 1] == m[..k] + [m[k]];
    if m[k].name in names {
      var i :| 0 <= i < k && m[..k][i].name == m[k].name;
      assert m[i].name == m[k].name;
    }
  }

  lemma ValidatedEntries(m: Manifest, files: seq<Entry>)
    requires ValidManifest(m) && |files| == |m| && forall i :: 0 <= i < |m| ==> files[i] == EntryOf(m[i])
    ensures Validated(m) == Some(files)
  {
    assert files == seq(|m|, i requires 0 <= i < |m| => EntryOf(m[i]));
  }

  /** One more entry: it is added, or the whole manifest is invalid. */
  lemma ValidatedStep(names: set<Option<string>>, m: Manifest, k: nat, validated: seq<Entry>)
    requires k < |m| && AreNames(names, m[..k]) && Validated(m[..k]) == Some(validated)
    ensures if !ValidEntry(m[k]) || m[k].name in names then Validated(m) == None
            else AreNames(names + {m[k].name}, m[..k + 1]) && Validated(m[..k + 1]) == Some(validated + [EntryOf(m[k])])
  {
    NewName(names, m, k);
    if ValidEntry(m[k]) && m[k].name !in names {
      assert m[..k + 1] == m[..k] + [m[k]];
      ValidatedEntries(m[..k + 1], validated + [EntryOf(m[k])]);
    }
  }

  lemma ValidatedIsWritten(m: Manifest)
    requires ValidManifest(m)
    ensures Written(Validated(m).value) == m
  {
  }

  /** `id` is 3 to 40 upper-case letters, digits and hyphens, the first no hyphen. */
  ghost predicate NamesLesson(id: string) {
    && 3 <= |id| <= 40 && id[0] != '-'
    && forall i :: 0 <= i < |id| ==> 'A' <= id[i] <= 'Z' || '0' <= id[i] <= '9' || id[i] == '-'
  }

  /** A manifest entry as it has to be: `<lesson id>.mp4`, a positive size and 64 lower-case hexadecimal digits. */
  ghost predicate IsWellFormed(r: RawEntry) {
    && (exists id :: NamesLesson(id) && r.name == Some(id + ".mp4"))
    && r.size.Some? && r.size.value >= 1
    && r.digest.Some? && |r.digest.value| == 64
    && forall i :: 0 <= i < 64 ==> '0' <= r.digest.value[i] <= '9' || 'a' <= r.digest.value[i] <= 'f'
  }

  lemma ValidIsWellFormed(r: RawEntry)
    ensures ValidEntry(r) <==> IsWellFormed(r)
  {
    if ValidEntry(r) {
      var id := Stem(r.name.value);
      assert r.name.value == id + ".mp4" && NamesLesson(id);
    }
    if IsWellFormed(r) {
      var id :| NamesLesson(id) && r.name == Some(id + ".mp4");
      assert Stem(r.name.value) == id;
    }
  }

  /** Checks the entries in order, keeping the names seen. */
  method ValidateManifestFiles(m: Manifest) returns (r: Option<seq<Entry>>)
    ensures r.Some? <==> (forall i :: 0 <= i < |m| ==> IsWellFormed(m[i]))
                         && forall i, j :: 0 <= i < j < |m| ==> m[i].name != m[j].name
    ensures r == Validated(m)
    ensures r.Some? ==> Written(r.value) == m
  {
    var validated: seq<Entry> := [];
    var names: set<Option<string>> := {};
    forall i | 0 <= i < |m|
      ensures ValidEntry(m[i]) <==> IsWellFormed(m[i])
    {
      ValidIsWellFormed(m[i]);
    }
    ValidatedEntries(m[..0], validated);
    for k := 0 to |m|
      invariant AreNames(names, m[..k]) && Validated(m[..k]) == Some(validated)
    {
      ValidatedStep(names, m, k, validated);
      if !ValidEntry(m[k]) || m[k].name in names {
        return None;
      }
      names := names + {m[k].name};
      validated := validated + [EntryOf(m[k])];
    }
    assert m[..|m|] == m;
    ValidatedIsWritten(m);
    return Some(validated);
  }

  // ---- Scanning the source directory ---------------------------------------------------------

  /** The mark `ftyp` at offset `at`. */
  predicate FtypAt(data: Data, at: nat) {
    at + 4 <= |data| && data[at..at + 4] == [0x66, 0x74, 0x79, 0x70]
  }

  /** The mark lies within the first 64 bytes. */
  predicate HasFtyp(data: Data) {
    exists i: nat | 0 <= i <= 60 :: FtypAt(data, i)
  }

  predicate Accepted(name: string, data: Data, maxBytes: int) {
    IsLessonId(Stem(name)) && 0 < |data| <= maxBytes && HasFtyp(data)
  }

  function Scan(source: map<string, Data>, names: seq<string>, hash: Data -> string, maxBytes: int): (seq<Entry>, nat)
    requires forall n :: n in names ==> n in source
    decreases |names|
  {
    if names == [] then ([], 0)
    else
      var last := |names| - 1;
      var (files, invalid) := Scan(source, names[..last], hash, maxBytes);
      var name := names[last];
      if !IsMp4(name) then (files, invalid)
      else if !Accepted(name, source[name], maxBytes) then (files, invalid + 1)
      else (files + [Entry(name, |source[name]|, hash(source[name]))], invalid)
  }

  /** Scans the directory listing in order. */
  method ScanSource(source: map<string, Data>, names: seq<string>, hash: Data -> string, maxBytes: int)
    returns (files: seq<Entry>, invalid: nat)
    requires forall n :: n in names ==> n in source
    ensures (files, invalid) == Scan(source, names, hash, maxBytes)
  {
    files, invalid := [], 0;
    for k := 0 to |names|
      invariant (files, invalid) == Scan(source, names[..k], hash, maxBytes)
    {
      assert names[..k + 1][..k] == names[..k];
      var name := names[k];
      if IsMp4(name) {
        if !Accepted(name, source[name], maxBytes) {
          invalid := invalid + 1;
        } else {
          files := files + [Entry(name, |source[name]|, hash(source[name]))];
        }
      }
    }
    assert names[..|names|] == names;
  }

  /** A name that the scan looks at: the suffix `.mp4` in any case after at least one character. */
  ghost predicate IsVideoName(name: string) {
    |name| > 4 && name[|name| - 4..] in {".mp4", ".mP4", ".Mp4", ".MP4"}
  }

  /** A video that it accepts: named by a lesson id, neither empty nor too large, with `ftyp` in its first 64 bytes. */
  ghost predicate IsGoodVideo(name: string, data: Data, maxBytes: int) {
    && IsVideoName(name) && NamesLesson(name[..|name| - 4]) && 1 <= |data| <= maxBytes
    && exists i: nat :: i <= 60 && Holds(data, i, [0x66, 0x74, 0x79, 0x70])
  }

  lemma AcceptedIsGood(name: string, data: Data, maxBytes: int)
    ensures IsMp4(name) <==> IsVideoName(name)
    ensures IsMp4(name) && Accepted(name, data, maxBytes) <==> IsGoodVideo(name, data, maxBytes)
  {
    if |name| > 4 {
      var suffix := name[|name| - 4..];
      assert suffix == [name[|name| - 4], name[|name| - 3], name[|name| - 2], name[|name| - 1]];
      assert IsMp4(name) <==> suffix in {".mp4", ".mP4", ".Mp4", ".MP4"};
    }
    if i: nat :| i <= 60 && Holds(data, i, [0x66, 0x74, 0x79, 0x70]) {
      assert FtypAt(data, i);
    }
    if HasFtyp(data) {
      var i: nat :| i <= 60 && FtypAt(data, i);
      assert Holds(data, i, [0x66, 0x74, 0x79, 0x70]);
    }
  }

  /** A scan without invalid entries lists exactly the videos of the directory, each with its size and hash. */
  lemma {:induction false} ScanIsExact(source: map<string, Data>, names: seq<string>, hash: Data -> string,
                                       maxBytes: int, e: Entry)
    requires forall n :: n in names ==> n in source
    ensures var (files, invalid) := Scan(source, names, hash, maxBytes);
            && (e in files ==> e.name in names && Accepted(e.name, source[e.name], maxBytes))
            && (e in files ==> IsMp4(e.name) && e.size == |source[e.name]| && e.digest == hash(source[e.name]))
            && (e in files <==> e.name in names && IsGoodVideo(e.name, source[e.name], maxBytes)
                                && e.size == |source[e.name]| && e.digest == hash(source[e.name]))
            && (invalid == 0 <==>
                  forall n :: n in names && IsVideoName(n) ==> IsGoodVideo(n, source[n], maxBytes))
            && (invalid == 0 && e.name in names && IsMp4(e.name) && e.size == |source[e.name]|
                && e.digest == hash(source[e.name])
                ==> e in files)
    decreases |names|
  {
    if names != [] {
      var last := |names| - 1;
      ScanIsExact(source, names[..last], hash, maxBytes, e);
      AcceptedIsGood(names[last], source[names[last]], maxBytes);
      assert names == names[..last] + [names[last]];
    }
  }

  ghost function VideoNames(names: seq<string>): set<string> {
    set n | n in names && IsVideoName(n)
  }

  lemma OneMoreName(before: seq<string>, name: string)
    requires name !in before
    ensures |VideoNames(before + [name])| == |VideoNames(before)| + if IsMp4(name) then 1 else 0
  {
    AcceptedIsGood(name, [], 0);
    assert VideoNames(before + [name]) ==
      if IsVideoName(name) then VideoNames(before) + {name} else VideoNames(before);
  }

  /** Each video of a directory is either listed or counted as invalid, once. */
  lemma {:induction false} ScanCountsEach(source: map<string, Data>, names: seq<string>, hash: Data -> string,
                                          maxBytes: int)
    requires forall n :: n in names ==> n in source
    requires forall i, j :: 0 <= i < j < |names| ==> names[i] != names[j]
    ensures var (files, invalid) := Scan(source, names, hash, maxBytes);
            |files| + invalid == |VideoNames(names)|
    decreases |names|
  {
    if names != [] {
      var last := |names| - 1;
      ScanCountsEach(source, names[..last], hash, maxBytes);
      assert names == names[..last] + [names[last]];
      OneMoreName(names[..last], names[last]);
    }
  }
}
