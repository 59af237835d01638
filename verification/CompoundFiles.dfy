/** The compound-file reader ([MS-CFB]): header, DIFAT, FAT, directory and mini FAT, and stream reads. */
module CompoundFiles {
  import opened Bytes
  import opened Wrappers
  import opened SectorChains
  import opened DirectoryTrees

  const SIGNATURE: seq<byte> := [0xd0, 0xcf, 0x11, 0xe0, 0xa1, 0xb1, 0x1a, 0xe1]
  const MINI_STREAM_CUTOFF: nat := 4096
  const MINI_SECTOR_SIZE: nat := 64
  const STREAM: nat := 2

  /** What a parsed file keeps. `entries` lists the directory map in insertion order. */
  datatype CompoundFile = CompoundFile(
    buffer: seq<byte>,
    sectorSize: nat,
    fat: seq<nat>,
    miniFat: seq<nat>,
    miniStream: seq<byte>,
    entries: seq<Entry>)
  {
    predicate Valid() {
      0 < sectorSize && sectorSize <= |buffer| && |buffer| % sectorSize == 0
    }
  }

  // ---- Sectors -------------------------------------------------------------------------------

  /** Where unit `id` of a store starts. */
  function UnitStart(base: nat, unit: nat, id: nat): nat {
    base + id * unit
  }

  /** Unit `id` of a store whose units start at `base` lies inside the store. */
  predicate Fits(store: seq<byte>, base: nat, unit: nat, id: nat) {
    UnitStart(base, unit, id) + unit <= |store|
  }

  function UnitAt(store: seq<byte>, base: nat, unit: nat, id: nat): (out: seq<byte>)
    requires Fits(store, base, unit, id)
    ensures |out| == unit
  {
    store[UnitStart(base, unit, id)..UnitStart(base, unit, id) + unit]
  }

  predicate AllFit(store: seq<byte>, base: nat, unit: nat, ids: seq<nat>) {
    forall i :: 0 <= i < |ids| ==> Fits(store, base, unit, ids[i])
  }

  /** The bytes of the listed units, in list order. */
  function Gather(store: seq<byte>, base: nat, unit: nat, ids: seq<nat>): (out: seq<byte>)
    requires AllFit(store, base, unit, ids)
    ensures |out| == |ids| * unit
  {
    if ids == [] then [] else UnitAt(store, base, unit, ids[0]) + Gather(store, base, unit, ids[1..])
  }

  lemma {:induction false} GatherAppend(store: seq<byte>, base: nat, unit: nat, ids: seq<nat>, id: nat)
    requires AllFit(store, base, unit, ids) && Fits(store, base, unit, id)
    ensures Gather(store, base, unit, ids + [id]) == Gather(store, base, unit, ids) + UnitAt(store, base, unit, id)
  {
    if ids == [] {
      assert ids + [id] == [id] && [id][1..] == [];
    } else {
      var head, own := UnitAt(store, base, unit, ids[0]), UnitAt(store, base, unit, id);
      GatherAppend(store, base, unit, ids[1..], id);
      calc {
        Gather(store, base, unit, ids + [id]);
      == { assert (ids + [id])[1..] == ids[1..] + [id]; }
        head + Gather(store, base, unit, ids[1..] + [id]);
      ==
        head + (Gather(store, base, unit, ids[1..]) + own);
      ==
        Gather(store, base, unit, ids) + own;
      }
    }
  }

  /** The number of sectors after the header sector. */
  function SectorCount(buffer: seq<byte>, size: nat): (n: nat)
    requires 0 < size <= |buffer| && |buffer| % size == 0
    ensures (n + 1) * size == |buffer|
  {
    |buffer| / size - 1
  }

  /** A sector lies inside the buffer exactly when its number is below the sector count. */
  lemma SectorFits(buffer: seq<byte>, size: nat, id: nat)
    requires 0 < size <= |buffer| && |buffer| % size == 0
    ensures Fits(buffer, size, size, id) <==> id < SectorCount(buffer, size)
  {
    UnitsInLength(|buffer|, size, SectorCount(buffer, size), id);
  }

  lemma UnitsInLength(length: nat, size: nat, n: nat, id: nat)
    requires size > 0 && (n + 1) * size == length
    ensures size + id * size + size <= length <==> id < n
  {
    TimesSum(id, 2, size);
    if id < n {
      TimesSum(id + 2, n - id - 1, size);
    } else {
      TimesSum(n + 1, id - n + 1, size);
    }
  }

  lemma TimesSum(a: nat, b: nat, size: nat)
    requires size > 0
    ensures (a + b) * size == a * size + b * size
    ensures if b == 0 then b * size == 0 else b * size > 0
  {
  }

  function Words(b: seq<byte>): (w: seq<nat>)
    ensures |w| == |b| / 4
  {
    seq(|b| / 4, i requires 0 <= i < |b| / 4 => U32(b, 4 * i))
  }

  lemma WordsAppend(a: seq<byte>, b: seq<byte>)
    requires |a| % 4 == 0
    ensures Words(a + b) == Words(a) + Words(b)
  {
    assert Holds(a + b, 0, a) && Holds(a + b, |a|, b);
    var n := |a| / 4;
    assert |a| == 4 * n;
    forall i | 0 <= i < |Words(a + b)|
      ensures Words(a + b)[i] == (Words(a) + Words(b))[i]
    {
      if i < n {
        HoldsU32(a + b, 0, a, 4 * i);
      } else {
        HoldsU32(a + b, |a|, b, 4 * (i - n));
      }
    }
  }

  // ---- Header --------------------------------------------------------------------------------

  datatype Header = Header(
    sectorSize: nat,
    fatSectors: nat,
    firstDirectory: nat,
    firstMiniFat: nat,
    miniFatSectors: nat,
    firstDifat: nat,
    difatSectors: nat)

  lemma WholeSectors(n: nat, size: nat)
    requires (size == 512 || size == 4096) && size <= n
    ensures (n - size) % size == 0 <==> n % size == 0
  {
    if size == 512 {
      assert (n - 512) % 512 == 0 <==> n % 512 == 0;
    }
  }

  /** The header checks; the result says what the rest of the parse may rely on. */
  function ReadHeader(b: seq<byte>): (r: Option<Header>)
    ensures r.Some? ==>
              && 512 <= |b|
              && (r.value.sectorSize == 512 || r.value.sectorSize == 4096)
              && r.value.sectorSize <= |b| && |b| % r.value.sectorSize == 0
              && r.value.fatSectors <= SectorCount(b, r.value.sectorSize)
              && r.value.difatSectors <= SectorCount(b, r.value.sectorSize)
  {
    if |b| < 512 || b[..8] != SIGNATURE || U16(b, 0x1c) != 0xfffe then None else
    var majorVersion := U16(b, 0x1a);
    if (majorVersion != 3 && majorVersion != 4)
       || U16(b, 0x1e) != (if majorVersion == 3 then 9 else 12) || U16(b, 0x20) != 6 then None else
    var size := if majorVersion == 3 then 512 else 4096;
    if |b| < size || (|b| - size) % size != 0 then None else
    WholeSectors(|b|, size);
    var h := Header(size, U32(b, 0x2c), U32(b, 0x30), U32(b, 0x3c), U32(b, 0x40), U32(b, 0x44), U32(b, 0x48));
    if U32(b, 0x38) != MINI_STREAM_CUTOFF
       || h.fatSectors > SectorCount(b, size) || h.difatSectors > SectorCount(b, size) then None
    else Some(h)
  }

  /** A header is accepted exactly when its bytes are those of version 3 with 512-byte or version 4 with 4096-byte
      sectors, 64-byte mini sectors and the 4096-byte cutoff, and the file is made of such sectors, no fewer than
      announced. */
  lemma HeaderIsExact(b: seq<byte>, h: Header)
    ensures ReadHeader(b) == Some(h) <==>
              && 512 <= |b| && b[..8] == [0xd0, 0xcf, 0x11, 0xe0, 0xa1, 0xb1, 0x1a, 0xe1] && U16(b, 28) == 0xfffe
              && ((U16(b, 26) == 3 && U16(b, 30) == 9 && h.sectorSize == 512)
                  || (U16(b, 26) == 4 && U16(b, 30) == 12 && h.sectorSize == 4096))
              && U16(b, 32) == 6 && U32(b, 56) == 4096
              && h.sectorSize <= |b| && |b| % h.sectorSize == 0
              && h.fatSectors == U32(b, 44) <= |b| / h.sectorSize - 1
              && h.difatSectors == U32(b, 72) <= |b| / h.sectorSize - 1
              && h.firstDirectory == U32(b, 48) && h.firstDifat == U32(b, 68)
              && h.firstMiniFat == U32(b, 60) && h.miniFatSectors == U32(b, 64)
  {
    if 512 <= |b| {
      WholeSectors(|b|, 512);
    }
    if 4096 <= |b| {
      WholeSectors(|b|, 4096);
    }
  }

  // ---- DIFAT and FAT -------------------------------------------------------------------------

  function Used(words: seq<nat>): seq<nat> {
    if words == [] then []
    else (if words[0] != FREE_SECTOR then [words[0]] else []) + Used(words[1..])
  }

  lemma {:induction false} UsedAppend(words: seq<nat>, w: nat)
    ensures Used(words + [w]) == Used(words) + (if w != FREE_SECTOR then [w] else [])
  {
    if words == [] {
      assert [w][1..] == [];
    } else {
      UsedAppend(words[1..], w);
      assert (words + [w])[1..] == words[1..] + [w];
    }
  }

  /** The link held by the last word of a DIFAT sector. */
  function DifatNext(b: seq<byte>, size: nat, id: nat): nat
    requires size >= 4 && Fits(b, size, size, id)
  {
    U32(UnitAt(b, size, size, id), size - 4)
  }

  /** `path` are the DIFAT sectors from `start`, the last one linking to `end`. */
  ghost predicate DifatPath(b: seq<byte>, size: nat, start: nat, path: seq<nat>, end: nat)
    requires size >= 4
    decreases |path|
  {
    if path == [] then start == end
    else path[0] == start && Fits(b, size, size, start)
         && DifatPath(b, size, DifatNext(b, size, start), path[1..], end)
  }

  lemma {:induction false} DifatPathFits(b: seq<byte>, size: nat, start: nat, path: seq<nat>, end: nat)
    requires size >= 4 && DifatPath(b, size, start, path, end)
    ensures AllFit(b, size, size, path)
    decreases |path|
  {
    if path != [] {
      DifatPathFits(b, size, DifatNext(b, size, start), path[1..], end);
      assert path == [path[0]] + path[1..];
    }
  }

  lemma {:induction false} DifatPathUnique(b: seq<byte>, size: nat, start: nat, p: seq<nat>, q: seq<nat>, end: nat)
    requires size >= 4 && |p| == |q| && DifatPath(b, size, start, p, end) && DifatPath(b, size, start, q, end)
    ensures p == q
    decreases |p|
  {
    if p != [] {
      DifatPathUnique(b, size, DifatNext(b, size, start), p[1..], q[1..], end);
      assert p == [p[0]] + p[1..] && q == [q[0]] + q[1..];
    }
  }

  lemma {:induction false} DifatPathAppend(b: seq<byte>, size: nat, start: nat, path: seq<nat>, mid: nat)
    requires size >= 4 && DifatPath(b, size, start, path, mid) && Fits(b, size, size, mid)
    ensures DifatPath(b, size, start, path + [mid], DifatNext(b, size, mid))
    decreases |path|
  {
    if path == [] {
      assert (path + [mid])[1..] == [];
    } else {
      DifatPathAppend(b, size, DifatNext(b, size, start), path[1..], mid);
      assert (path + [mid])[1..] == path[1..] + [mid];
    }
  }

  /** The first steps of a path are forced: any path agrees with the one walked so far. */
  lemma {:induction false} DifatPathForced(b: seq<byte>, size: nat, start: nat, walked: seq<nat>, mid: nat,
                                           p: seq<nat>, end: nat)
    requires size >= 4 && DifatPath(b, size, start, walked, mid) && DifatPath(b, size, start, p, end)
    requires |walked| <= |p|
    ensures walked <= p && DifatPath(b, size, mid, p[|walked|..], end)
    decreases |walked|
  {
    if walked == [] {
      assert p[0..] == p;
    } else {
      DifatPathForced(b, size, DifatNext(b, size, start), walked[1..], mid, p[1..], end);
      assert p[1..][|walked| - 1..] == p[|walked|..];
      assert p == [p[0]] + p[1..] && walked == [walked[0]] + walked[1..];
    }
  }

  /** The FAT sector numbers that one DIFAT sector holds, free slots dropped. */
  function DifatSectorIds(b: seq<byte>, size: nat, id: nat): seq<nat>
    requires size >= 4 && Fits(b, size, size, id)
  {
    Used(Words(UnitAt(b, size, size, id))[..size / 4 - 1])
  }

  /** The FAT sector numbers that the listed DIFAT sectors hold. */
  function DifatIds(b: seq<byte>, size: nat, path: seq<nat>): seq<nat>
    requires size >= 4 && AllFit(b, size, size, path)
  {
    if path == [] then []
    else
      var last := |path| - 1;
      DifatIds(b, size, path[..last]) + DifatSectorIds(b, size, path[last])
  }

  /** All FAT sector numbers: the header's 109 slots, then the DIFAT sectors. */
  function Difat(b: seq<byte>, size: nat, path: seq<nat>): seq<nat>
    requires |b| >= 512 && size >= 4 && AllFit(b, size, size, path)
  {
    Used(Words(b[0x4c..0x200])) + DifatIds(b, size, path)
  }

  /** `path` is the DIFAT chain that the header announces. */
  ghost predicate IsDifat(b: seq<byte>, h: Header, path: seq<nat>)
    requires h.sectorSize >= 4
  {
    |path| == h.difatSectors && Distinct(path) && DifatPath(b, h.sectorSize, h.firstDifat, path, 0xfffffffe)
  }

  /** Collects the used slots of one run of words. */
  method ReadUsed(b: seq<byte>, count: nat) returns (ids: seq<nat>)
    requires 4 * count <= |b|
    ensures ids == Used(Words(b)[..count])
  {
    ids := [];
    for index := 0 to count
      invariant ids == Used(Words(b)[..index])
    {
      var id := U32(b, index * 4);
      UsedAppend(Words(b)[..index], id);
      assert Words(b)[..index + 1] == Words(b)[..index] + [id];
      if id != FREE_SECTOR {
        ids := ids + [id];
      }
    }
  }

  /** A repeated or out-of-range DIFAT sector leaves no DIFAT chain of the announced length. */
  lemma DifatBlocked(b: seq<byte>, h: Header, walked: seq<nat>, current: nat)
    requires h.sectorSize >= 4 && |walked| < h.difatSectors
    requires DifatPath(b, h.sectorSize, h.firstDifat, walked, current)
    requires current in walked || !Fits(b, h.sectorSize, h.sectorSize, current)
    ensures forall p :: !IsDifat(b, h, p)
  {
    forall p: seq<nat> | IsDifat(b, h, p)
      ensures false
    {
      DifatPathForced(b, h.sectorSize, h.firstDifat, walked, current, p, END_OF_CHAIN);
    }
  }

  /** A chain of the announced length that does not end there leaves no DIFAT chain. */
  lemma DifatOverruns(b: seq<byte>, h: Header, walked: seq<nat>, current: nat)
    requires h.sectorSize >= 4 && |walked| == h.difatSectors && current != END_OF_CHAIN
    requires DifatPath(b, h.sectorSize, h.firstDifat, walked, current)
    ensures forall p :: !IsDifat(b, h, p)
  {
    forall p: seq<nat> | IsDifat(b, h, p)
      ensures false
    {
      DifatPathForced(b, h.sectorSize, h.firstDifat, walked, current, p, END_OF_CHAIN);
    }
  }

  lemma DifatAppend(b: seq<byte>, size: nat, path: seq<nat>, id: nat)
    requires |b| >= 512 && size >= 4 && AllFit(b, size, size, path) && Fits(b, size, size, id)
    ensures AllFit(b, size, size, path + [id])
    ensures Difat(b, size, path + [id]) == Difat(b, size, path) + DifatSectorIds(b, size, id)
  {
    assert (path + [id])[..|path|] == path;
  }

  /** Reads one DIFAT sector: the numbers it holds and the link to the next one. */
  method ReadDifatSector(b: seq<byte>, size: nat, id: nat) returns (ids: seq<nat>, next: nat)
    requires size >= 4 && Fits(b, size, size, id)
    ensures ids == DifatSectorIds(b, size, id) && next == DifatNext(b, size, id)
  {
    var difatSector := UnitAt(b, size, size, id);
    ids := ReadUsed(difatSector, size / 4 - 1);
    next := U32(difatSector, size - 4);
  }

  /** Reads the DIFAT, refusing a repeated or out-of-range DIFAT sector and a wrong chain length. */
  method ReadDifat(b: seq<byte>, h: Header) returns (r: Option<seq<nat>>, ghost path: seq<nat>)
    requires ReadHeader(b) == Some(h)
    ensures r.Some? ==> IsDifat(b, h, path) && AllFit(b, h.sectorSize, h.sectorSize, path)
                        && r.value == Difat(b, h.sectorSize, path)
    ensures r.None? ==> forall p :: !IsDifat(b, h, p)
  {
    var size := h.sectorSize;
    var header := b[0x4c..0x200];
    var difat := ReadUsed(header, 109);
    assert Words(header)[..109] == Words(header);
    path := [];
    var difatSectorId: nat := h.firstDifat;
    var seen: set<nat> := {};
    for count := 0 to h.difatSectors
      invariant |path| == count && Distinct(path) && forall id :: id in seen <==> id in path
      invariant DifatPath(b, size, h.firstDifat, path, difatSectorId)
      invariant AllFit(b, size, size, path) && difat == Difat(b, size, path)
    {
      SectorFits(b, size, difatSectorId);
      if difatSectorId in seen || difatSectorId >= SectorCount(b, size) {
        DifatBlocked(b, h, path, difatSectorId);
        return None, [];
      }
      seen := seen + {difatSectorId};
      var ids, next := ReadDifatSector(b, size, difatSectorId);
      DifatPathAppend(b, size, h.firstDifat, path, difatSectorId);
      DifatAppend(b, size, path, difatSectorId);
      difat := difat + ids;
      path := path + [difatSectorId];
      difatSectorId := next;
    }
    if difatSectorId != END_OF_CHAIN {
      DifatOverruns(b, h, path, difatSectorId);
      return None, [];
    }
    return Some(difat), path;
  }

  /** Concatenates the listed sectors. */
  method ReadSectors(b: seq<byte>, size: nat, ids: seq<nat>) returns (r: Option<seq<byte>>)
    requires 0 < size <= |b| && |b| % size == 0
    ensures r.Some? <==> AllFit(b, size, size, ids)
    ensures r.Some? ==> r.value == Gather(b, size, size, ids)
  {
    var chunks: seq<byte> := [];
    for i := 0 to |ids|
      invariant AllFit(b, size, size, ids[..i]) && chunks == Gather(b, size, size, ids[..i])
    {
      SectorFits(b, size, ids[i]);
      if ids[i] >= SectorCount(b, size) {
        return None;
      }
      GatherAppend(b, size, size, ids[..i], ids[i]);
      assert ids[..i + 1] == ids[..i] + [ids[i]];
      chunks := chunks + UnitAt(b, size, size, ids[i]);
    }
    assert ids[..|ids|] == ids;
    return Some(chunks);
  }

  /** Reads the 32-bit words of a byte run. */
  method ReadWords(b: seq<byte>) returns (words: seq<nat>)
    ensures words == Words(b)
  {
    words := [];
    for index := 0 to |b| / 4
      invariant words == Words(b)[..index]
    {
      words := words + [U32(b, index * 4)];
    }
  }

  /** The FAT is the words of the sectors the DIFAT lists, in DIFAT order. */
  method ReadFat(b: seq<byte>, size: nat, ids: seq<nat>) returns (r: Option<seq<nat>>)
    requires 0 < size <= |b| && |b| % size == 0 && size % 4 == 0
    ensures r.Some? <==> AllFit(b, size, size, ids)
    ensures r.Some? ==> r.value == Words(Gather(b, size, size, ids))
  {
    var fat: seq<nat> := [];
    for i := 0 to |ids|
      invariant AllFit(b, size, size, ids[..i]) && fat == Words(Gather(b, size, size, ids[..i]))
    {
      SectorFits(b, size, ids[i]);
      if ids[i] >= SectorCount(b, size) {
        return None;
      }
      var fatSector := UnitAt(b, size, size, ids[i]);
      var words := ReadWords(fatSector);
      GatherAppend(b, size, size, ids[..i], ids[i]);
      MultipleOfFour(i, size);
      WordsAppend(Gather(b, size, size, ids[..i]), fatSector);
      assert ids[..i + 1] == ids[..i] + [ids[i]];
      fat := fat + words;
    }
    assert ids[..|ids|] == ids;
    return Some(fat);
  }

  lemma {:induction false} MultipleOfFour(k: nat, size: nat)
    requires size % 4 == 0
    ensures (k * size) % 4 == 0
  {
    assert k * size == 4 * (k * (size / 4));
  }

  // ---- Regular chains and the directory ------------------------------------------------------

  /** `chain` lists the in-range sectors of the stream that starts at `start`. */
  ghost predicate IsRegularChain(b: seq<byte>, size: nat, fat: seq<nat>, start: nat, chain: seq<nat>) {
    IsChain(fat, start, chain) && AllFit(b, size, size, chain)
  }

  /** Reads a chain through the FAT. */
  method ReadRegularChain(b: seq<byte>, size: nat, fat: seq<nat>, start: nat, maxItems: nat)
    returns (r: Option<seq<byte>>, ghost chain: seq<nat>)
    requires 0 < size <= |b| && |b| % size == 0
    ensures r.Some? ==> IsRegularChain(b, size, fat, start, chain) && |chain| <= maxItems
                        && r.value == Gather(b, size, size, chain)
    ensures r.None? ==> forall c :: IsRegularChain(b, size, fat, start, c) ==> |c| > maxItems
  {
    chain := [];
    var followed := FollowChain(start, fat, maxItems);
    match followed {
      case None => return None, [];
      case Some(ids) =>
        chain := ids;
        r := ReadSectors(b, size, ids);
        if r == None {
          forall c | IsRegularChain(b, size, fat, start, c)
            ensures false
          {
            ChainUnique(fat, start, c, ids);
          }
        }
    }
  }

  /** `slots` and `root` are what directory bytes `d` describe: no malformed slot, one root entry. */
  ghost predicate IsDirectory(d: seq<byte>, slots: seq<Option<Entry>>, root: nat) {
    && |d| > 0 && |d| % 128 == 0 && |slots| == |d| / 128
    && (forall i :: 0 <= i < |slots| ==> ReadSlot(d, i) == Filled(slots[i]))
    && root < |slots| && slots[root].Some? && slots[root].value.kind == 5
    && (forall i :: 0 <= i < |slots| && i != root && slots[i].Some? ==> slots[i].value.kind != 5)
  }

  lemma DirectoryUnique(d: seq<byte>, s1: seq<Option<Entry>>, r1: nat, s2: seq<Option<Entry>>, r2: nat)
    requires IsDirectory(d, s1, r1) && IsDirectory(d, s2, r2)
    ensures s1 == s2 && r1 == r2
  {
    forall i | 0 <= i < |s1|
      ensures s1[i] == s2[i]
    {
      assert ReadSlot(d, i) == Filled(s1[i]) == Filled(s2[i]);
    }
  }

  lemma RootSlot(d: seq<byte>, slots: seq<Option<Entry>>, root: nat)
    requires IsDirectory(d, slots, root)
    ensures root < |d| / 128 && exists e :: ReadSlot(d, root) == Filled(Some(e)) && e.kind == ROOT
  {
    assert ReadSlot(d, root) == Filled(slots[root]);
  }

  lemma OnlyRoot(d: seq<byte>, slots: seq<Option<Entry>>, root: nat, i: nat)
    requires IsDirectory(d, slots, root)
    requires i < |d| / 128 && exists e :: ReadSlot(d, i) == Filled(Some(e)) && e.kind == ROOT
    ensures i == root
  {
    assert ReadSlot(d, i) == Filled(slots[i]);
  }

  lemma TwoRoots(d: seq<byte>, i: nat, j: nat)
    requires i < j < |d| / 128
    requires exists e :: ReadSlot(d, i) == Filled(Some(e)) && e.kind == ROOT
    requires exists e :: ReadSlot(d, j) == Filled(Some(e)) && e.kind == ROOT
    ensures forall s, k: nat :: !IsDirectory(d, s, k)
  {
    forall s, k: nat
      ensures !IsDirectory(d, s, k)
    {
      if IsDirectory(d, s, k) && i != k {
        OnlyRoot(d, s, k, i);
      } else if IsDirectory(d, s, k) {
        OnlyRoot(d, s, k, j);
      }
    }
  }

  datatype Slot = Malformed | Filled(entry: Option<Entry>)

  /** Directory slot `i`: 128 bytes, empty when its type byte is zero. */
  function ReadSlot(d: seq<byte>, i: nat): Slot
    requires 128 * i + 128 <= |d|
  {
    var at := 128 * i;
    var nameLength := U16(d, at + 64);
    var kind := d[at + 66] as nat;
    if kind == 0 then Filled(None)
    else if nameLength < 2 || nameLength > 64 || nameLength % 2 != 0 then Malformed
    else
      var name := Utf16(d[at..at + nameLength - 2]);
      if name == [] || U32(d, at + 124) != 0 || (kind != STORAGE && kind != STREAM && kind != ROOT) then Malformed
      else Filled(Some(Entry(name, kind, U32(d, at + 68), U32(d, at + 72), U32(d, at + 76), U32(d, at + 116),
                             U32(d, at + 120))))
  }

  /** A slot is empty exactly when its type byte is 0, and holds an entry exactly when its bytes are one of a storage, a
      stream or a root with a name of 1 to 31 code units and a size below 2^32. */
  lemma SlotIsExact(d: seq<byte>, i: nat, e: Entry)
    requires 128 * i + 128 <= |d|
    ensures var at := 128 * i;
            && (ReadSlot(d, i) == Filled(None) <==> d[at + 66] == 0)
            && (ReadSlot(d, i) == Filled(Some(e)) <==>
                  && d[at + 66] as nat == e.kind && (e.kind == 1 || e.kind == 2 || e.kind == 5)
                  && 4 <= U16(d, at + 64) <= 64 && U16(d, at + 64) % 2 == 0
                  && 2 * |e.name| + 2 == U16(d, at + 64)
                  && (forall k :: 0 <= k < |e.name| ==> e.name[k] == U16(d, at + 2 * k))
                  && e.leftSibling == U32(d, at + 68) && e.rightSibling == U32(d, at + 72) && e.child == U32(d, at + 76)
                  && e.startSector == U32(d, at + 116) && e.size == U32(d, at + 120) && U32(d, at + 124) == 0)
  {
    var at := 128 * i;
    var length := U16(d, at + 64);
    if 2 <= length <= 64 {
      var units := Utf16(d[at..at + length - 2]);
      forall k | 0 <= k < |units|
        ensures units[k] == U16(d, at + 2 * k)
      {
        assert Holds(d, at, d[at..at + length - 2]);
        HoldsU16(d, at, d[at..at + length - 2], 2 * k);
      }
      if 2 * |e.name| + 2 == length && forall k :: 0 <= k < |e.name| ==> e.name[k] == U16(d, at + 2 * k) {
        assert e.name == units;
      }
    }
  }

  /** UTF-16LE code units; JavaScript strings are sequences of exactly these. */
  function Utf16(b: seq<byte>): (units: seq<nat>)
    ensures |units| == |b| / 2
  {
    seq(|b| / 2, i requires 0 <= i < |b| / 2 => U16(b, 2 * i))
  }

  /** Reads every directory slot, refusing a malformed slot and a second root entry. */
  method ReadDirectory(d: seq<byte>) returns (r: Option<seq<Option<Entry>>>, root: nat)
    ensures r.Some? ==> IsDirectory(d, r.value, root)
    ensures r.None? ==> forall slots, i: nat :: !IsDirectory(d, slots, i)
  {
    root := 0;
    if |d| == 0 || |d| % 128 != 0 {
      return None, 0;
    }
    var slots: seq<Option<Entry>> := [];
    var found := false;
    for i := 0 to |d| / 128
      invariant |slots| == i
      invariant forall j :: 0 <= j < i ==> ReadSlot(d, j) == Filled(slots[j])
      invariant found ==> root < i && slots[root].Some? && slots[root].value.kind == ROOT
      invariant forall j :: 0 <= j < i && (!found || j != root) && slots[j].Some? ==> slots[j].value.kind != ROOT
    {
      var slot := ReadSlot(d, i);
      if slot == Malformed {
        return None, 0;
      }
      if slot.entry.Some? && slot.entry.value.kind == ROOT {
        if found {
          TwoRoots(d, root, i);
          return None, 0;
        }
        found, root := true, i;
      }
      slots := slots + [slot.entry];
    }
    if !found {
      forall s, k: nat | IsDirectory(d, s, k)
        ensures false
      {
        RootSlot(d, s, k);
      }
      return None, 0;
    }
    return Some(slots), root;
  }

  // ---- The whole parse -----------------------------------------------------------------------

  /** The chains, slots and tree that justify a parse result. */
  datatype Evidence = Evidence(
    difat: seq<nat>,
    directory: seq<nat>,
    slots: seq<Option<Entry>>,
    root: nat,
    tree: Tree,
    miniFat: seq<nat>,
    rootStream: seq<nat>)

  /** `fat` is the FAT: the words of the first `fatSectors` sectors that the DIFAT lists. */
  ghost predicate IsFat(b: seq<byte>, h: Header, fat: seq<nat>, path: seq<nat>)
    requires ReadHeader(b) == Some(h)
  {
    var size := h.sectorSize;
    && IsDifat(b, h, path) && AllFit(b, size, size, path)
    && h.fatSectors <= |Difat(b, size, path)|
    && (var ids := Difat(b, size, path)[..h.fatSectors];
        AllFit(b, size, size, ids) && fat == Words(Gather(b, size, size, ids)))
  }

  /** `slots` and `root` are the directory, read through the FAT. */
  ghost predicate IsDirectoryStream(b: seq<byte>, h: Header, fat: seq<nat>, chain: seq<nat>,
                                    slots: seq<Option<Entry>>, root: nat)
    requires ReadHeader(b) == Some(h)
  {
    && IsRegularChain(b, h.sectorSize, fat, h.firstDirectory, chain)
    && |chain| <= SectorCount(b, h.sectorSize)
    && IsDirectory(Gather(b, h.sectorSize, h.sectorSize, chain), slots, root)
  }

  /** `entries` are the entries of the tree under the root entry, in order, all ids and names distinct. */
  ghost predicate IsEntryMap(slots: seq<Option<Entry>>, root: nat, tree: Tree, entries: seq<Entry>) {
    && root < |slots| && slots[root].Some?
    && IsTree(slots, slots[root].value.child, tree)
    && Distinct(InOrder(tree)) && DistinctNames(EntriesOf(tree))
    && entries == EntriesOf(tree)
  }

  /** `miniFat` is the mini FAT, read through a chain of exactly the announced length. */
  ghost predicate IsMiniFat(b: seq<byte>, h: Header, fat: seq<nat>, chain: seq<nat>, miniFat: seq<nat>)
    requires ReadHeader(b) == Some(h)
  {
    && IsRegularChain(b, h.sectorSize, fat, h.firstMiniFat, chain)
    && |chain| == h.miniFatSectors
    && miniFat == Words(Gather(b, h.sectorSize, h.sectorSize, chain))
  }

  /** The mini stream is the first `size` bytes of the root entry's chain. */
  ghost predicate IsRootStream(b: seq<byte>, size: nat, fat: seq<nat>, root: Entry, chain: seq<nat>, out: seq<byte>)
    requires 0 < size <= |b| && |b| % size == 0
  {
    if root.size == 0 then chain == [] && out == []
    else
      && IsRegularChain(b, size, fat, root.startSector, chain)
      && |chain| <= SectorCount(b, size)
      && root.size <= |chain| * size
      && out == Gather(b, size, size, chain)[..root.size]
  }

  /** Everything a compound file must satisfy, stated without the order of the reads:
      which sectors form the FAT, which chains exist, and that the sibling links form a tree. */
  ghost predicate Describes(b: seq<byte>, c: CompoundFile, ev: Evidence) {
    && ReadHeader(b).Some?
    && var h := ReadHeader(b).value;
       && c.buffer == b && c.sectorSize == h.sectorSize
       && IsFat(b, h, c.fat, ev.difat)
       && IsDirectoryStream(b, h, c.fat, ev.directory, ev.slots, ev.root)
       && IsEntryMap(ev.slots, ev.root, ev.tree, c.entries)
       && IsMiniFat(b, h, c.fat, ev.miniFat, c.miniFat)
       && IsRootStream(b, h.sectorSize, c.fat, ev.slots[ev.root].value, ev.rootStream, c.miniStream)
  }

  lemma FatUnique(b: seq<byte>, h: Header, f1: seq<nat>, p1: seq<nat>, f2: seq<nat>, p2: seq<nat>)
    requires ReadHeader(b) == Some(h) && IsFat(b, h, f1, p1) && IsFat(b, h, f2, p2)
    ensures f1 == f2 && p1 == p2
  {
    DifatPathUnique(b, h.sectorSize, h.firstDifat, p1, p2, END_OF_CHAIN);
  }

  lemma DirectoryStreamUnique(b: seq<byte>, h: Header, fat: seq<nat>,
                              c1: seq<nat>, s1: seq<Option<Entry>>, r1: nat,
                              c2: seq<nat>, s2: seq<Option<Entry>>, r2: nat)
    requires ReadHeader(b) == Some(h)
    requires IsDirectoryStream(b, h, fat, c1, s1, r1) && IsDirectoryStream(b, h, fat, c2, s2, r2)
    ensures c1 == c2 && s1 == s2 && r1 == r2
  {
    ChainUnique(fat, h.firstDirectory, c1, c2);
    DirectoryUnique(Gather(b, h.sectorSize, h.sectorSize, c1), s1, r1, s2, r2);
  }

  lemma MiniFatUnique(b: seq<byte>, h: Header, fat: seq<nat>, c1: seq<nat>, m1: seq<nat>, c2: seq<nat>, m2: seq<nat>)
    requires ReadHeader(b) == Some(h) && IsMiniFat(b, h, fat, c1, m1) && IsMiniFat(b, h, fat, c2, m2)
    ensures c1 == c2 && m1 == m2
  {
    ChainUnique(fat, h.firstMiniFat, c1, c2);
  }

  lemma RootStreamUnique(b: seq<byte>, size: nat, fat: seq<nat>, root: Entry,
                         c1: seq<nat>, o1: seq<byte>, c2: seq<nat>, o2: seq<byte>)
    requires 0 < size <= |b| && |b| % size == 0
    requires IsRootStream(b, size, fat, root, c1, o1) && IsRootStream(b, size, fat, root, c2, o2)
    ensures c1 == c2 && o1 == o2
  {
    if root.size != 0 {
      ChainUnique(fat, root.startSector, c1, c2);
    }
  }

  /** A buffer describes at most one compound file. */
  lemma DescribesUnique(b: seq<byte>, c1: CompoundFile, e1: Evidence, c2: CompoundFile, e2: Evidence)
    requires Describes(b, c1, e1) && Describes(b, c2, e2)
    ensures c1 == c2 && e1 == e2
  {
    var h := ReadHeader(b).value;
    FatUnique(b, h, c1.fat, e1.difat, c2.fat, e2.difat);
    DirectoryStreamUnique(b, h, c1.fat, e1.directory, e1.slots, e1.root, e2.directory, e2.slots, e2.root);
    var root := e1.slots[e1.root].value;
    TreeUnique(e1.slots, root.child, e1.tree, e2.tree);
    MiniFatUnique(b, h, c1.fat, e1.miniFat, c1.miniFat, e2.miniFat, c2.miniFat);
    RootStreamUnique(b, h.sectorSize, c1.fat, root, e1.rootStream, c1.miniStream, e2.rootStream, c2.miniStream);
  }

  /** Reads the DIFAT and, through it, the FAT. */
  method ReadAllocation(b: seq<byte>, h: Header) returns (r: Option<seq<nat>>, ghost path: seq<nat>)
    requires ReadHeader(b) == Some(h)
    ensures r.Some? ==> IsFat(b, h, r.value, path)
    ensures r.None? ==> forall fat, p :: !IsFat(b, h, fat, p)
  {
    var difat;
    difat, path := ReadDifat(b, h);
    if difat == None || |difat.value| < h.fatSectors {
      forall fat, p: seq<nat> | IsFat(b, h, fat, p)
        ensures false
      {
        if difat.Some? {
          DifatPathUnique(b, h.sectorSize, h.firstDifat, path, p, END_OF_CHAIN);
        }
      }
      return None, [];
    }
    r := ReadFat(b, h.sectorSize, difat.value[..h.fatSectors]);
    if r == None {
      forall fat, p: seq<nat> | IsFat(b, h, fat, p)
        ensures false
      {
        DifatPathUnique(b, h.sectorSize, h.firstDifat, path, p, END_OF_CHAIN);
      }
    }
  }

  /** Reads the directory through the FAT. */
  method ReadDirectoryStream(b: seq<byte>, h: Header, fat: seq<nat>)
    returns (r: Option<seq<Option<Entry>>>, root: nat, ghost chain: seq<nat>)
    requires ReadHeader(b) == Some(h)
    ensures r.Some? ==> IsDirectoryStream(b, h, fat, chain, r.value, root)
    ensures r.None? ==> forall c, s, i: nat :: !IsDirectoryStream(b, h, fat, c, s, i)
  {
    r, root := None, 0;
    var bytes;
    bytes, chain := ReadRegularChain(b, h.sectorSize, fat, h.firstDirectory, SectorCount(b, h.sectorSize));
    if bytes.Some? {
      r, root := ReadDirectory(bytes.value);
      if r == None {
        forall c, s, i: nat | IsDirectoryStream(b, h, fat, c, s, i)
          ensures false
        {
          ChainUnique(fat, h.firstDirectory, c, chain);
        }
      }
    }
  }

  /** Walks the sibling tree under the root entry. */
  method ReadEntryMap(slots: seq<Option<Entry>>, root: nat) returns (r: Option<seq<Entry>>, ghost tree: Tree)
    requires root < |slots| && slots[root].Some?
    ensures r.Some? ==> IsEntryMap(slots, root, tree, r.value)
    ensures r.None? ==> forall t, es :: !IsEntryMap(slots, root, t, es)
  {
    var visitor := new SiblingVisitor(slots);
    var child := slots[root].value.child;
    var visited;
    visited, tree := visitor.Visit(child);
    if visited {
      assert [] + EntriesOf(tree) == EntriesOf(tree);
      return Some(visitor.entries), tree;
    }
    forall t, es | IsEntryMap(slots, root, t, es)
      ensures false
    {
      assert [] + EntriesOf(t) == EntriesOf(t);
      assert CanVisit(slots, child, {}, [], t);
    }
    return None, tree;
  }

  /** Reads the mini FAT through a chain of exactly the announced length. */
  method ReadMiniFat(b: seq<byte>, h: Header, fat: seq<nat>) returns (r: Option<seq<nat>>, ghost chain: seq<nat>)
    requires ReadHeader(b) == Some(h)
    ensures r.Some? ==> IsMiniFat(b, h, fat, chain, r.value)
    ensures r.None? ==> forall c, m :: !IsMiniFat(b, h, fat, c, m)
  {
    chain := [];
    if h.miniFatSectors == 0 {
      if h.firstMiniFat != END_OF_CHAIN {
        return None, [];
      }
      return Some([]), [];
    }
    var followed := FollowChain(h.firstMiniFat, fat, h.miniFatSectors);
    if followed == None {
      return None, [];
    }
    var ids := followed.value;
    chain := ids;
    forall c | IsChain(fat, h.firstMiniFat, c)
      ensures c == chain
    {
      ChainUnique(fat, h.firstMiniFat, c, chain);
    }
    if |ids| != h.miniFatSectors {
      return None, [];
    }
    var bytes := ReadSectors(b, h.sectorSize, ids);
    if bytes == None {
      return None, [];
    }
    var words := ReadWords(bytes.value);
    return Some(words), chain;
  }

  /** Reads the mini stream: the root entry's chain, cut to the root entry's size. */
  method ReadRootStream(b: seq<byte>, size: nat, fat: seq<nat>, root: Entry)
    returns (r: Option<seq<byte>>, ghost chain: seq<nat>)
    requires 0 < size <= |b| && |b| % size == 0
    ensures r.Some? ==> IsRootStream(b, size, fat, root, chain, r.value)
    ensures r.None? ==> forall c, out :: !IsRootStream(b, size, fat, root, c, out)
  {
    if root.size == 0 {
      return Some([]), [];
    }
    r, chain := ReadRegularChain(b, size, fat, root.startSector, SectorCount(b, size));
    if r.Some? && |r.value| < root.size {
      forall c, out | IsRootStream(b, size, fat, root, c, out)
        ensures false
      {
        ChainUnique(fat, root.startSector, c, chain);
      }
      return None, [];
    }
    if r.Some? {
      r := Some(r.value[..root.size]);
    }
  }

  /** Parses a compound file. It succeeds exactly on the buffers that describe one. */
  method Parse(b: seq<byte>) returns (r: Option<CompoundFile>, ghost ev: Evidence)
    ensures r.Some? ==> Describes(b, r.value, ev) && r.value.Valid()
    ensures r.None? ==> forall c, e :: !Describes(b, c, e)
  {
    ev := Evidence([], [], [], 0, Leaf, [], []);
    var header := ReadHeader(b);
    if header == None {
      return None, ev;
    }
    var h := header.value;
    var fat, difatPath := ReadAllocation(b, h);
    if fat == None {
      return None, ev;
    }
    forall c, e | Describes(b, c, e)
      ensures c.fat == fat.value
    {
      FatUnique(b, h, fat.value, difatPath, c.fat, e.difat);
    }
    var slots, root, directory := ReadDirectoryStream(b, h, fat.value);
    if slots == None {
      return None, ev;
    }
    forall c, e | Describes(b, c, e)
      ensures e.slots == slots.value && e.root == root
    {
      DirectoryStreamUnique(b, h, fat.value, directory, slots.value, root, e.directory, e.slots, e.root);
    }
    var entries, tree := ReadEntryMap(slots.value, root);
    if entries == None {
      return None, ev;
    }
    var miniFat, miniChain := ReadMiniFat(b, h, fat.value);
    if miniFat == None {
      return None, ev;
    }
    var miniStream, rootChain := ReadRootStream(b, h.sectorSize, fat.value, slots.value[root].value);
    if miniStream == None {
      return None, ev;
    }
    ev := Evidence(difatPath, directory, slots.value, root, tree, miniChain, rootChain);
    return Some(CompoundFile(b, h.sectorSize, fat.value, miniFat.value, miniStream.value, entries.value)), ev;
  }
}
