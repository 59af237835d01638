/** The ZIP reader: end record, central directory and local entries (PKWARE APPNOTE.TXT sections 4.3.7, 4.3.12, 4.3.16).
    UTF-8 decoding and inflate are parameters. */
module ZipPackages {
  import opened Bytes
  import opened Texts
  import opened Wrappers

  const EOCD_SIGNATURE: nat := 0x06054b50
  const CENTRAL_SIGNATURE: nat := 0x02014b50
  const LOCAL_SIGNATURE: nat := 0x04034b50
  const MAX_ENTRIES: nat := 2048
  const MAX_UNCOMPRESSED: nat := 100 * 1024 * 1024
  const MAX_INSPECTED: nat := 2 * 1024 * 1024

  type Decoder = seq<byte> -> string
  type Inflater = seq<byte> -> Option<seq<byte>>

  datatype ZipEntry = ZipEntry(
    name: string,
    flags: nat,
    compression: nat,
    compressedSize: nat,
    uncompressedSize: nat,
    localOffset: nat)

  /** `entries` lists the entry map in insertion order. */
  datatype ZipPackage = ZipPackage(buffer: seq<byte>, entries: seq<ZipEntry>)

  // ---- Safe names ----------------------------------------------------------------------------

  predicate IsSafePath(name: string) {
    && name != "" && '\0' !in name && '\\' !in name && name[0] != '/'
    && ".." !in Split(name, '/')
  }

  /** A safe entry name resolves below whatever directory it is extracted into. */
  lemma {:induction false} SafePathStaysInside(dir: seq<string>, parts: seq<string>)
    requires ".." !in parts
    ensures Resolve(dir, parts).Some? && dir <= Resolve(dir, parts).value
    decreases |parts|
  {
    if parts != [] {
      if parts[0] == "" || parts[0] == "." {
        SafePathStaysInside(dir, parts[1..]);
      } else {
        SafePathStaysInside(dir + [parts[0]], parts[1..]);
      }
    }
  }

  // ---- End record ----------------------------------------------------------------------------

  /** An end record whose comment runs exactly to the end of the buffer starts at `at`. */
  predicate IsEndRecord(b: seq<byte>, at: nat) {
    at + 22 <= |b| && U32(b, at) == EOCD_SIGNATURE && at + 22 + U16(b, at + 20) == |b|
  }

  /** The last end record of the buffer. */
  ghost predicate IsLastEndRecord(b: seq<byte>, at: nat) {
    IsEndRecord(b, at) && forall later: nat :: IsEndRecord(b, later) ==> later <= at
  }

  /** Searches backwards over every position a 65535-byte comment allows. */
  method FindEndRecord(b: seq<byte>) returns (r: Option<nat>)
    requires |b| >= 22
    ensures r.Some? ==> IsLastEndRecord(b, r.value)
    ensures r.None? ==> forall at :: !IsEndRecord(b, at)
  {
    var searchStart := if |b| >= 65557 then |b| - 65557 else 0;
    var offset: int := |b| - 22;
    while offset >= searchStart
      invariant searchStart - 1 <= offset <= |b| - 22
      invariant forall at: nat :: at > offset ==> !IsEndRecord(b, at)
    {
      if U32(b, offset) == EOCD_SIGNATURE && offset + 22 + U16(b, offset + 20) == |b| {
        return Some(offset);
      }
      offset := offset - 1;
    }
    return None;
  }

  // ---- Central directory ---------------------------------------------------------------------

  /** The central record at `at`, with the position after it; None when a field check fails. */
  function RecordAt(b: seq<byte>, at: nat, limit: nat, decode: Decoder): (r: Option<(ZipEntry, nat)>)
    requires limit <= |b|
    ensures r.Some? ==> at < r.value.1 <= limit
  {
    if at + 46 > limit || U32(b, at) != CENTRAL_SIGNATURE then None else
    var flags, compression := U16(b, at + 8), U16(b, at + 10);
    var compressed, uncompressed, local := U32(b, at + 20), U32(b, at + 24), U32(b, at + 42);
    var nameLength := U16(b, at + 28);
    var next := at + 46 + nameLength + U16(b, at + 30) + U16(b, at + 32);
    if next > limit || nameLength == 0 || flags % 2 != 0 || (compression != 0 && compression != 8)
       || U16(b, at + 34) != 0
       || compressed == 0xffffffff || uncompressed == 0xffffffff || local == 0xffffffff then None
    else Some((ZipEntry(decode(b[at + 46..at + 46 + nameLength]), flags, compression, compressed, uncompressed, local),
               next))
  }

  /** How the record at a position reads, and where the next one starts. */
  type Reader = nat -> Option<(ZipEntry, nat)>

  function RecordReader(b: seq<byte>, limit: nat, decode: Decoder): Reader
    requires limit <= |b|
  {
    (at: nat) => RecordAt(b, at, limit, decode)
  }

  /** The records of `entries` lie end to end from `at` to `end`. */
  ghost predicate Tiles(reader: Reader, at: nat, end: nat, entries: seq<ZipEntry>)
    decreases |entries|
  {
    if entries == [] then at == end
    else
      var r := reader(at);
      r.Some? && r.value.0 == entries[0] && Tiles(reader, r.value.1, end, entries[1..])
  }

  ghost predicate DistinctNames(entries: seq<ZipEntry>) {
    forall i, j :: 0 <= i < j < |entries| ==> entries[i].name != entries[j].name
  }

  /** Every name is a relative path without climbing, backslash or null character. */
  ghost predicate AllSafe(entries: seq<ZipEntry>) {
    forall i :: 0 <= i < |entries| ==>
      var name := entries[i].name;
      && name != "" && name[0] != '/' && '\\' !in name && '\0' !in name
      && forall k :: 0 <= k < |Split(name, '/')| ==> Split(name, '/')[k] != ".."
  }

  function Total(entries: seq<ZipEntry>): nat {
    if entries == [] then 0 else Total(entries[..|entries| - 1]) + entries[|entries| - 1].uncompressedSize
  }

  predicate HasEntry(entries: seq<ZipEntry>, name: string) {
    exists i :: 0 <= i < |entries| && entries[i].name == name
  }

  lemma {:induction false} TilesAppend(reader: Reader, at: nat, mid: nat, entries: seq<ZipEntry>)
    requires Tiles(reader, at, mid, entries) && reader(mid).Some?
    ensures Tiles(reader, at, reader(mid).value.1, entries + [reader(mid).value.0])
    decreases |entries|
  {
    var e := reader(mid).value.0;
    if entries == [] {
      assert (entries + [e])[1..] == [];
    } else {
      TilesAppend(reader, reader(at).value.1, mid, entries[1..]);
      assert (entries + [e])[1..] == entries[1..] + [e];
    }
  }

  /** Records read from the same place agree: a longer tiling starts with the shorter one. */
  lemma {:induction false} TilesForced(reader: Reader, at: nat, mid: nat, end: nat,
                                       read: seq<ZipEntry>, entries: seq<ZipEntry>)
    requires |read| <= |entries| && Tiles(reader, at, mid, read) && Tiles(reader, at, end, entries)
    ensures read <= entries && Tiles(reader, mid, end, entries[|read|..])
    decreases |read|
  {
    if read == [] {
      assert entries[0..] == entries;
    } else {
      TilesForced(reader, reader(at).value.1, mid, end, read[1..], entries[1..]);
      assert entries[1..][|read| - 1..] == entries[|read|..];
      assert read == [read[0]] + read[1..] && entries == [entries[0]] + entries[1..];
    }
  }

  lemma {:induction false} TotalPrefix(entries: seq<ZipEntry>, n: nat)
    requires n <= |entries|
    ensures Total(entries[..n]) <= Total(entries)
    decreases |entries|
  {
    if n == |entries| {
      assert entries[..n] == entries;
    } else {
      var shorter := entries[..|entries| - 1];
      TotalPrefix(shorter, n);
      assert shorter[..n] == entries[..n];
    }
  }

  lemma TotalNext(entries: seq<ZipEntry>, n: nat)
    requires n < |entries|
    ensures Total(entries[..n]) + entries[n].uncompressedSize <= Total(entries)
  {
    TotalPrefix(entries, n + 1);
    assert entries[..n + 1][..n] == entries[..n];
  }

  /** `entries` are `count` records tiling [from, to), with safe distinct names and a bounded total size. */
  ghost predicate IsListing(reader: Reader, from: nat, to: nat, count: nat, entries: seq<ZipEntry>) {
    && |entries| == count
    && Tiles(reader, from, to, entries)
    && AllSafe(entries) && DistinctNames(entries) && Total(entries) <= 104_857_600
  }

  lemma ListingUnique(reader: Reader, from: nat, to: nat, count: nat, a: seq<ZipEntry>, b: seq<ZipEntry>)
    requires IsListing(reader, from, to, count, a) && IsListing(reader, from, to, count, b)
    ensures a == b
  {
    TilesForced(reader, from, to, to, a, b);
  }

  /** Any listing that starts with `read` has an acceptable record next. */
  lemma ListingContinues(reader: Reader, from: nat, to: nat, count: nat, read: seq<ZipEntry>, at: nat,
                         es: seq<ZipEntry>)
    requires |read| < count && Tiles(reader, from, at, read) && IsListing(reader, from, to, count, es)
    ensures var r := reader(at);
            r.Some? && IsSafePath(r.value.0.name) && !HasEntry(read, r.value.0.name)
            && Total(read) + r.value.0.uncompressedSize <= MAX_UNCOMPRESSED
  {
    TilesForced(reader, from, at, to, read, es);
    assert es[|read|..][0] == es[|read|];
    TotalNext(es, |read|);
    assert es[..|read|] == read;
    assert forall i :: 0 <= i < |read| ==> read[i] == es[i];
  }

  /** A record that fails a check after `read` leaves no acceptable listing. */
  lemma ListingBlocked(reader: Reader, from: nat, to: nat, count: nat, read: seq<ZipEntry>, at: nat)
    requires |read| < count && Tiles(reader, from, at, read)
    requires var r := reader(at);
             r == None || !IsSafePath(r.value.0.name) || HasEntry(read, r.value.0.name)
             || Total(read) + r.value.0.uncompressedSize > MAX_UNCOMPRESSED
    ensures forall es :: !IsListing(reader, from, to, count, es)
  {
    forall es | IsListing(reader, from, to, count, es)
      ensures false
    {
      ListingContinues(reader, from, to, count, read, at, es);
    }
  }

  /** Reads the central directory record by record. */
  method ReadListing(reader: Reader, from: nat, to: nat, count: nat) returns (r: Option<seq<ZipEntry>>)
    ensures r.Some? ==> IsListing(reader, from, to, count, r.value)
    ensures r.None? ==> forall es :: !IsListing(reader, from, to, count, es)
  {
    var entries: seq<ZipEntry> := [];
    var offset: nat := from;
    var totalUncompressed := 0;
    for index := 0 to count
      invariant |entries| == index && Tiles(reader, from, offset, entries)
      invariant AllSafe(entries) && DistinctNames(entries)
      invariant totalUncompressed == Total(entries) <= MAX_UNCOMPRESSED
    {
      var record := reader(offset);
      if record == None || !IsSafePath(record.value.0.name) || HasEntry(entries, record.value.0.name) {
        ListingBlocked(reader, from, to, count, entries, offset);
        return None;
      }
      var entry, next := record.value.0, record.value.1;
      if totalUncompressed + entry.uncompressedSize > MAX_UNCOMPRESSED {
        ListingBlocked(reader, from, to, count, entries, offset);
        return None;
      }
      totalUncompressed := totalUncompressed + entry.uncompressedSize;
      TilesAppend(reader, from, offset, entries);
      assert (entries + [entry])[..index] == entries;
      entries := entries + [entry];
      offset := next;
    }
    if offset != to {
      forall es | IsListing(reader, from, to, count, es)
        ensures false
      {
        TilesForced(reader, from, offset, to, entries, es);
      }
      return None;
    }
    return Some(entries);
  }

  // ---- The whole parse -----------------------------------------------------------------------

  /** What the end record announces. */
  datatype Announced = Announced(count: nat, from: nat, to: nat)

  /** The end-record fields, when the reader accepts them. */
  function EndFields(b: seq<byte>, at: nat): (r: Option<Announced>)
    requires at + 22 <= |b|
    ensures r.Some? ==> 0 < r.value.count <= MAX_ENTRIES && r.value.from <= r.value.to <= at
  {
    var entryCount, centralSize, centralOffset := U16(b, at + 10), U32(b, at + 12), U32(b, at + 16);
    if U16(b, at + 4) != 0 || U16(b, at + 6) != 0 || U16(b, at + 8) != entryCount
       || entryCount == 0 || entryCount > MAX_ENTRIES
       || centralSize == 0xffffffff || centralOffset == 0xffffffff
       || centralOffset + centralSize > at then None
    else Some(Announced(entryCount, centralOffset, centralOffset + centralSize))
  }

  /** The fields of the last end record, when the file starts as an archive does and the reader accepts them. */
  ghost function LastFields(b: seq<byte>, end: nat): Option<Announced> {
    if 22 <= |b| && b[..2] == [0x50, 0x4b] && IsLastEndRecord(b, end) then EndFields(b, end) else None
  }

  /** The package a buffer holds: its last end record announces exactly these entries, whose records tile
      the announced central directory, with safe distinct names and a bounded total size. */
  ghost predicate IsPackage(b: seq<byte>, decode: Decoder, end: nat, entries: seq<ZipEntry>) {
    match LastFields(b, end)
    case None => false
    case Some(a) => IsListing(RecordReader(b, end, decode), a.from, a.to, a.count, entries)
  }

  /** Parses a package. It succeeds exactly on the buffers that hold one. */
  method Parse(b: seq<byte>, decode: Decoder) returns (r: Option<ZipPackage>, ghost end: nat)
    ensures r.Some? ==> r.value.buffer == b && IsPackage(b, decode, end, r.value.entries)
    ensures r.None? ==> forall at: nat, es :: !IsPackage(b, decode, at, es)
    ensures r.Some? ==> forall i :: 0 <= i < |r.value.entries| ==>
                          var name := r.value.entries[i].name;
                          && name != "" && name[0] != '/' && '\\' !in name && '\0' !in name
                          && forall k :: 0 <= k < |Split(name, '/')| ==> Split(name, '/')[k] != ".."
  {
    end := 0;
    if |b| < 22 || b[..2] != [0x50, 0x4b] {
      return None, 0;
    }
    var eocd := FindEndRecord(b);
    if eocd == None {
      return None, 0;
    }
    var fields := EndFields(b, eocd.value);
    if fields == None {
      return None, 0;
    }
    var a := fields.value;
    var entries := ReadListing(RecordReader(b, eocd.value, decode), a.from, a.to, a.count);
    if entries == None {
      return None, 0;
    }
    return Some(ZipPackage(b, entries.value)), eocd.value;
  }

  // ---- What a package promises ---------------------------------------------------------------

  /** Every entry of a package has a name of its own without climbing, backslash or null character, and extracting it
      below any directory stays below it. */
  lemma EntriesStayInside(b: seq<byte>, decode: Decoder, end: nat, es: seq<ZipEntry>, i: nat, dir: seq<string>)
    requires IsPackage(b, decode, end, es) && i < |es|
    ensures var name := es[i].name;
            && name != "" && name[0] != '/' && '\\' !in name && '\0' !in name
            && (forall k :: 0 <= k < |Split(name, '/')| ==> Split(name, '/')[k] != "..")
            && (forall j :: 0 <= j < |es| && j != i ==> es[j].name != name)
            && Resolve(dir, Split(name, '/')).Some? && dir <= Resolve(dir, Split(name, '/')).value
  {
    SafePathStaysInside(dir, Split(es[i].name, '/'));
  }

  /** The end record of a package: one disk, as many entries as listed, no 64-bit marks, and a central directory that
      ends before it. */
  lemma EndIsPlain(b: seq<byte>, decode: Decoder, end: nat, es: seq<ZipEntry>)
    requires IsPackage(b, decode, end, es)
    ensures 22 <= |b| && b[0] == 0x50 && b[1] == 0x4b
    ensures end + 22 <= |b| && U32(b, end) == 0x06054b50 && end + 22 + U16(b, end + 20) == |b|
    ensures forall later: nat :: end < later && later + 22 <= |b| && U32(b, later) == 0x06054b50 ==>
              later + 22 + U16(b, later + 20) != |b|
    ensures U16(b, end + 4) == 0 && U16(b, end + 6) == 0
    ensures U16(b, end + 8) == U16(b, end + 10) == |es| && 1 <= |es| <= 2048
    ensures U32(b, end + 12) != 0xffffffff && U32(b, end + 16) != 0xffffffff
    ensures U32(b, end + 16) + U32(b, end + 12) <= end
    ensures Total(es) <= 104_857_600
  {
    assert b[0] == b[..2][0] && b[1] == b[..2][1];
    forall later: nat | end < later && later + 22 <= |b| && U32(b, later) == 0x06054b50
      ensures later + 22 + U16(b, later + 20) != |b|
    {
      assert !IsEndRecord(b, later);
    }
  }

  /** The bytes at `at` are the central record of `e`, the next record at `next`. */
  ghost predicate Records(b: seq<byte>, at: nat, e: ZipEntry, next: nat, decode: Decoder) {
    && at + 46 <= next <= |b| && U32(b, at) == 0x02014b50
    && e.flags == U16(b, at + 8) && e.flags % 2 == 0
    && e.compression == U16(b, at + 10) && (e.compression == 0 || e.compression == 8)
    && e.compressedSize == U32(b, at + 20) != 0xffffffff && e.uncompressedSize == U32(b, at + 24) != 0xffffffff
    && e.localOffset == U32(b, at + 42) != 0xffffffff && U16(b, at + 34) == 0
    && 1 <= U16(b, at + 28) && next == at + 46 + U16(b, at + 28) + U16(b, at + 30) + U16(b, at + 32)
    && e.name == decode(b[at + 46..at + 46 + U16(b, at + 28)])
  }

  /** A record is read exactly when its bytes are one of an unencrypted, stored or deflated entry on the one disk. */
  lemma RecordIsExact(b: seq<byte>, at: nat, limit: nat, decode: Decoder, e: ZipEntry, next: nat)
    requires limit <= |b|
    ensures RecordAt(b, at, limit, decode) == Some((e, next)) <==> next <= limit && Records(b, at, e, next, decode)
  {
  }

  /** Position `k` of the records is where the first `k` of them end. */
  lemma {:induction false} TilesAt(reader: Reader, at: nat, end: nat, es: seq<ZipEntry>) returns (starts: seq<nat>)
    requires Tiles(reader, at, end, es)
    ensures |starts| == |es| + 1 && starts[0] == at && starts[|es|] == end
    ensures forall k :: 0 <= k < |es| ==> reader(starts[k]) == Some((es[k], starts[k + 1]))
    decreases |es|
  {
    if es == [] {
      starts := [at];
    } else {
      var rest := TilesAt(reader, reader(at).value.1, end, es[1..]);
      starts := [at] + rest;
    }
  }

  /** The central directory of a package: the announced range is filled by the records of its entries, end to end. */
  lemma EntriesAreRecorded(b: seq<byte>, decode: Decoder, end: nat, es: seq<ZipEntry>) returns (starts: seq<nat>)
    requires IsPackage(b, decode, end, es)
    ensures |starts| == |es| + 1 && end + 22 <= |b|
    ensures starts[0] == U32(b, end + 16) && starts[|es|] == U32(b, end + 16) + U32(b, end + 12)
    ensures forall k :: 0 <= k < |es| ==> Records(b, starts[k], es[k], starts[k + 1], decode)
  {
    var a := LastFields(b, end).value;
    starts := TilesAt(RecordReader(b, end, decode), a.from, a.to, es);
    forall k | 0 <= k < |es|
      ensures Records(b, starts[k], es[k], starts[k + 1], decode)
    {
      RecordIsExact(b, starts[k], end, decode, es[k], starts[k + 1]);
    }
  }

  lemma LastIsUnique(b: seq<byte>, e1: nat, e2: nat)
    requires LastFields(b, e1).Some? && LastFields(b, e2).Some?
    ensures e1 == e2
  {
  }

  /** A buffer holds at most one package. */
  lemma PackageUnique(b: seq<byte>, decode: Decoder, e1: nat, es1: seq<ZipEntry>, e2: nat, es2: seq<ZipEntry>)
    requires IsPackage(b, decode, e1, es1) && IsPackage(b, decode, e2, es2)
    ensures e1 == e2 && es1 == es2
  {
    LastIsUnique(b, e1, e2);
    var a := LastFields(b, e1).value;
    ListingUnique(RecordReader(b, e1, decode), a.from, a.to, a.count, es1, es2);
  }

  // ---- Reading an entry ----------------------------------------------------------------------

  function Find(entries: seq<ZipEntry>, name: string): (r: Option<ZipEntry>)
    ensures r.Some? ==> r.value in entries && r.value.name == name
    ensures r.None? ==> !HasEntry(entries, name)
  {
    if entries == [] then None
    else if entries[0].name == name then Some(entries[0])
    else Find(entries[1..], name)
  }

  lemma {:induction false} FindListed(entries: seq<ZipEntry>, i: nat)
    requires DistinctNames(entries) && i < |entries|
    ensures Find(entries, entries[i].name) == Some(entries[i])
  {
    if i > 0 {
      FindListed(entries[1..], i - 1);
      assert entries[0].name != entries[i].name;
    }
  }

  /** The text of an entry: its local header must repeat the central record, and the unpacked size must match. */
  function ReadText(p: ZipPackage, name: string, decode: Decoder, inflate: Inflater): Option<string> {
    var found := Find(p.entries, name);
    if found == None || found.value.uncompressedSize > MAX_INSPECTED then None else
    var e, b := found.value, p.buffer;
    var at := e.localOffset;
    if at + 30 > |b| || U32(b, at) != LOCAL_SIGNATURE then None else
    var nameEnd := at + 30 + U16(b, at + 26);
    var dataStart := nameEnd + U16(b, at + 28);
    var dataEnd := dataStart + e.compressedSize;
    if U16(b, at + 6) != e.flags || U16(b, at + 8) != e.compression || dataEnd > |b| then None
    else if decode(b[at + 30..nameEnd]) != e.name then None
    else
      var packed := b[dataStart..dataEnd];
      var output := if e.compression == 0 then Some(packed) else inflate(packed);
      if output == None || |output.value| != e.uncompressedSize then None else Some(decode(output.value))
  }

  /** The local part of `e` repeats its flags, method and name, and its stored bytes lie in the buffer. */
  ghost predicate RepeatsLocally(b: seq<byte>, e: ZipEntry, decode: Decoder) {
    var at := e.localOffset;
    && at + 30 <= |b| && U32(b, at) == 0x04034b50
    && U16(b, at + 6) == e.flags && U16(b, at + 8) == e.compression
    && at + 30 + U16(b, at + 26) + U16(b, at + 28) + e.compressedSize <= |b|
    && decode(b[at + 30..at + 30 + U16(b, at + 26)]) == e.name
  }

  /** The stored bytes: they follow the local name and extra field. */
  ghost function StoredBytes(b: seq<byte>, e: ZipEntry, decode: Decoder): seq<byte>
    requires RepeatsLocally(b, e, decode)
  {
    var start := e.localOffset + 30 + U16(b, e.localOffset + 26) + U16(b, e.localOffset + 28);
    b[start..start + e.compressedSize]
  }

  /** An entry reads as a text exactly when it is small enough to inspect, its local part repeats it, and what is stored
      there, unpacked unless the method is 0, has the announced length and decodes to the text. */
  lemma TextIsExact(p: ZipPackage, e: ZipEntry, decode: Decoder, inflate: Inflater, text: string)
    requires Find(p.entries, e.name) == Some(e)
    ensures ReadText(p, e.name, decode, inflate) == Some(text) <==>
              && e.uncompressedSize <= 2_097_152 && RepeatsLocally(p.buffer, e, decode)
              && var stored := StoredBytes(p.buffer, e, decode);
                 var output := if e.compression == 0 then Some(stored) else inflate(stored);
                 output.Some? && |output.value| == e.uncompressedSize && decode(output.value) == text
  {
  }

  /** A name that no entry has reads as nothing. */
  lemma MissingReadsNothing(p: ZipPackage, name: string, decode: Decoder, inflate: Inflater)
    requires forall i :: 0 <= i < |p.entries| ==> p.entries[i].name != name
    ensures ReadText(p, name, decode, inflate) == None
  {
  }
}
