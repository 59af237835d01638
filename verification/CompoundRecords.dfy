/** The records a compound file is written from ([MS-CFB] sections 2.2, 2.3, 2.5 and 2.6), and their way back
    through the reader. */
module CompoundRecords {
  import opened Bytes
  import opened Wrappers
  import opened SectorChains
  import opened DirectoryTrees
  import opened CompoundFiles

  function Zeros(n: nat): (b: seq<byte>)
    ensures |b| == n && forall i :: 0 <= i < n ==> b[i] == 0
  {
    seq(n, _ => 0)
  }

  // ---- Words and half words ------------------------------------------------------------------

  predicate AllWords(words: seq<nat>) {
    forall i :: 0 <= i < |words| ==> words[i] < 0x1_0000_0000
  }

  function WordBytes(words: seq<nat>): (b: seq<byte>)
    requires AllWords(words)
    ensures |b| == 4 * |words|
  {
    if words == [] then [] else PutU32(words[0]) + WordBytes(words[1..])
  }

  lemma {:induction false} WordsReadBack(words: seq<nat>)
    requires AllWords(words)
    ensures Words(WordBytes(words)) == words
  {
    if words != [] {
      WordsReadBack(words[1..]);
      WordsAppend(PutU32(words[0]), WordBytes(words[1..]));
      assert Words(PutU32(words[0])) == [words[0]];
    }
  }

  /** The i-th of the words held anywhere in a buffer. */
  lemma HeldWord(b: seq<byte>, at: nat, words: seq<nat>, i: nat)
    requires AllWords(words) && Holds(b, at, WordBytes(words)) && i < |words|
    ensures U32(b, at + 4 * i) == words[i]
  {
    WordsReadBack(words);
    HoldsU32(b, at, WordBytes(words), 4 * i);
    assert Words(WordBytes(words))[i] == U32(WordBytes(words), 4 * i);
  }

  predicate AllUnits(units: seq<nat>) {
    forall i :: 0 <= i < |units| ==> units[i] < 0x1_0000
  }

  function UnitBytes(units: seq<nat>): (b: seq<byte>)
    requires AllUnits(units)
    ensures |b| == 2 * |units|
  {
    if units == [] then [] else PutU16(units[0]) + UnitBytes(units[1..])
  }

  /** The i-th of the half words held anywhere in a buffer. */
  lemma {:induction false} HeldUnit(b: seq<byte>, at: nat, units: seq<nat>, i: nat)
    requires AllUnits(units) && Holds(b, at, UnitBytes(units)) && i < |units|
    ensures U16(b, at + 2 * i) == units[i]
    decreases i
  {
    HoldsSplit(b, at, PutU16(units[0]), UnitBytes(units[1..]));
    if i == 0 {
      HoldsU16(b, at, PutU16(units[0]), 0);
    } else {
      HeldUnit(b, at + 2, units[1..], i - 1);
    }
  }

  // ---- Directory slots -----------------------------------------------------------------------

  /** The fields fit their widths, and the kind is one that the reader knows. */
  predicate Writable(e: Entry) {
    && 0 < |e.name| <= 31 && AllUnits(e.name)
    && (e.kind == 1 || e.kind == 2 || e.kind == 5)
    && AllWords([e.leftSibling, e.rightSibling, e.child]) && AllWords([e.startSector, e.size, 0])
  }

  /** An entry: the name with its terminator, kind and colour, the links, and where the stream starts. */
  function EntryBytes(e: Entry): (b: seq<byte>)
    requires Writable(e)
    ensures |b| == 128
  {
    (UnitBytes(e.name) + Zeros(64 - 2 * |e.name|))
    + ((PutU16(2 * |e.name| + 2) + [e.kind as byte, 1])
       + (WordBytes([e.leftSibling, e.rightSibling, e.child])
          + (Zeros(36) + WordBytes([e.startSector, e.size, 0]))))
  }

  /** Where each part of an entry sits. */
  lemma EntryParts(e: Entry)
    requires Writable(e)
    ensures var d := EntryBytes(e);
            && d[0..2 * |e.name|] == UnitBytes(e.name)
            && Holds(d, 64, PutU16(2 * |e.name| + 2)) && Holds(d, 66, [e.kind as byte, 1])
            && Holds(d, 68, WordBytes([e.leftSibling, e.rightSibling, e.child]))
            && Holds(d, 116, WordBytes([e.startSector, e.size, 0]))
  {
    var d := EntryBytes(e);
    var key := PutU16(2 * |e.name| + 2) + [e.kind as byte, 1];
    var links, place := WordBytes([e.leftSibling, e.rightSibling, e.child]), WordBytes([e.startSector, e.size, 0]);
    assert Holds(d, 0, d);
    HoldsSplit(d, 0, UnitBytes(e.name) + Zeros(64 - 2 * |e.name|), key + (links + (Zeros(36) + place)));
    HoldsSplit(d, 0, UnitBytes(e.name), Zeros(64 - 2 * |e.name|));
    HoldsSplit(d, 64, key, links + (Zeros(36) + place));
    HoldsSplit(d, 64, PutU16(2 * |e.name| + 2), [e.kind as byte, 1]);
    HoldsSplit(d, 68, links, Zeros(36) + place);
    HoldsSplit(d, 80, Zeros(36), place);
  }

  lemma UnitsReadBack(units: seq<nat>)
    requires AllUnits(units)
    ensures Utf16(UnitBytes(units)) == units
  {
    var b := UnitBytes(units);
    assert Holds(b, 0, b);
    forall i | 0 <= i < |units|
      ensures U16(b, 2 * i) == units[i]
    {
      HeldUnit(b, 0, units, i);
    }
  }

  lemma HeldThree(b: seq<byte>, at: nat, x: nat, y: nat, z: nat)
    requires AllWords([x, y, z]) && Holds(b, at, WordBytes([x, y, z]))
    ensures U32(b, at) == x && U32(b, at + 4) == y && U32(b, at + 8) == z
  {
    HeldWord(b, at, [x, y, z], 0);
    HeldWord(b, at, [x, y, z], 1);
    HeldWord(b, at, [x, y, z], 2);
  }

  /** `d` starts with a slot that holds the fields of `e`. */
  predicate HasFields(d: seq<byte>, e: Entry) {
    && |d| == 128
    && U16(d, 64) == 2 * |e.name| + 2 && d[66] as nat == e.kind
    && U32(d, 68) == e.leftSibling && U32(d, 72) == e.rightSibling && U32(d, 76) == e.child
    && U32(d, 116) == e.startSector && U32(d, 120) == e.size && U32(d, 124) == 0
  }

  lemma EntryNumbers(e: Entry)
    requires Writable(e)
    ensures HasFields(EntryBytes(e), e)
  {
    var d := EntryBytes(e);
    EntryParts(e);
    HoldsU16(d, 64, PutU16(2 * |e.name| + 2), 0);
    assert d[66] == d[66..68][0] == e.kind as byte;
    HeldThree(d, 68, e.leftSibling, e.rightSibling, e.child);
    HeldThree(d, 116, e.startSector, e.size, 0);
  }

  lemma SlotOfFields(d: seq<byte>, e: Entry)
    requires Writable(e) && HasFields(d, e) && Utf16(d[0..2 * |e.name|]) == e.name
    ensures ReadSlot(d, 0) == Filled(Some(e))
  {
  }

  /** A written entry reads back. */
  lemma EntryReadsBack(e: Entry)
    requires Writable(e)
    ensures ReadSlot(EntryBytes(e), 0) == Filled(Some(e))
  {
    EntryNumbers(e);
    EntryParts(e);
    UnitsReadBack(e.name);
    SlotOfFields(EntryBytes(e), e);
  }

  lemma NumbersMove(d: seq<byte>, at: nat, part: seq<byte>)
    requires |part| == 128 && Holds(d, at, part)
    ensures U16(d, at + 64) == U16(part, 64) && d[at + 66] == part[66]
    ensures U32(d, at + 68) == U32(part, 68) && U32(d, at + 72) == U32(part, 72) && U32(d, at + 76) == U32(part, 76)
    ensures U32(d, at + 116) == U32(part, 116) && U32(d, at + 120) == U32(part, 120)
    ensures U32(d, at + 124) == U32(part, 124)
  {
    HoldsU16(d, at, part, 64);
    assert d[at + 66] == d[at..at + 128][66];
    HoldsU32(d, at, part, 68);
    HoldsU32(d, at, part, 72);
    HoldsU32(d, at, part, 76);
    HoldsU32(d, at, part, 116);
    HoldsU32(d, at, part, 120);
    HoldsU32(d, at, part, 124);
  }

  lemma NameMoves(d: seq<byte>, at: nat, part: seq<byte>)
    requires |part| == 128 && Holds(d, at, part)
    ensures var n := U16(part, 64); 2 <= n <= 64 ==> d[at..at + n - 2] == part[0..n - 2]
  {
    var n := U16(part, 64);
    if 2 <= n <= 64 {
      assert d[at..at + 128][..n - 2] == d[at..at + n - 2];
    }
  }

  lemma SameSlot(d: seq<byte>, i: nat, at: nat, part: seq<byte>)
    requires at == 128 * i && at + 128 <= |d| && |part| == 128
    requires U16(d, at + 64) == U16(part, 64) && d[at + 66] == part[66]
    requires U32(d, at + 68) == U32(part, 68) && U32(d, at + 72) == U32(part, 72) && U32(d, at + 76) == U32(part, 76)
    requires U32(d, at + 116) == U32(part, 116) && U32(d, at + 120) == U32(part, 120)
    requires U32(d, at + 124) == U32(part, 124)
    requires var n := U16(part, 64); 2 <= n <= 64 ==> d[at..at + n - 2] == part[0..n - 2]
    ensures ReadSlot(d, i) == ReadSlot(part, 0)
  {
  }

  /** A slot reads the same wherever it is held. */
  lemma SlotMoves(d: seq<byte>, i: nat, part: seq<byte>)
    requires |part| == 128 && Holds(d, 128 * i, part)
    ensures ReadSlot(d, i) == ReadSlot(part, 0)
  {
    NumbersMove(d, 128 * i, part);
    NameMoves(d, 128 * i, part);
    SameSlot(d, i, 128 * i, part);
  }

  predicate WritableSlots(slots: seq<Option<Entry>>) {
    forall i :: 0 <= i < |slots| && slots[i].Some? ==> Writable(slots[i].value)
  }

  function SlotBytes(slot: Option<Entry>): (b: seq<byte>)
    requires slot.Some? ==> Writable(slot.value)
    ensures |b| == 128
  {
    if slot == None then Zeros(128) else EntryBytes(slot.value)
  }

  predicate AllOfSize(pieces: seq<seq<byte>>, n: nat) {
    forall i :: 0 <= i < |pieces| ==> |pieces[i]| == n
  }

  function Join(pieces: seq<seq<byte>>): (b: seq<byte>)
    ensures AllOfSize(pieces, 128) ==> |b| == 128 * |pieces|
  {
    if pieces == [] then [] else pieces[0] + Join(pieces[1..])
  }

  lemma {:induction false} PieceHeld(d: seq<byte>, at: nat, pieces: seq<seq<byte>>, i: nat)
    requires AllOfSize(pieces, 128) && i < |pieces| && Holds(d, at, Join(pieces))
    ensures Holds(d, at + 128 * i, pieces[i])
    decreases i
  {
    HoldsSplit(d, at, pieces[0], Join(pieces[1..]));
    if i > 0 {
      PieceHeld(d, at + 128, pieces[1..], i - 1);
    }
  }

  function Pieces(slots: seq<Option<Entry>>): (pieces: seq<seq<byte>>)
    requires WritableSlots(slots)
    ensures |pieces| == |slots| && AllOfSize(pieces, 128)
  {
    seq(|slots|, i requires 0 <= i < |slots| => SlotBytes(slots[i]))
  }

  /** The directory: its slots, one after the other. */
  function DirectoryBytes(slots: seq<Option<Entry>>): (b: seq<byte>)
    requires WritableSlots(slots)
    ensures |b| == 128 * |slots|
  {
    Join(Pieces(slots))
  }

  /** Exactly one slot, `root`, is a root entry. */
  predicate OneRoot(slots: seq<Option<Entry>>, root: nat) {
    && root < |slots| && slots[root].Some? && slots[root].value.kind == ROOT
    && forall i :: 0 <= i < |slots| && i != root && slots[i].Some? ==> slots[i].value.kind != ROOT
  }

  lemma SlotReadsBack(slot: Option<Entry>)
    requires slot.Some? ==> Writable(slot.value)
    ensures ReadSlot(SlotBytes(slot), 0) == Filled(slot)
  {
    if slot.Some? {
      EntryReadsBack(slot.value);
    }
  }

  lemma HeldSlot(d: seq<byte>, i: nat, slot: Option<Entry>)
    requires slot.Some? ==> Writable(slot.value)
    requires Holds(d, 128 * i, SlotBytes(slot))
    ensures ReadSlot(d, i) == Filled(slot)
  {
    SlotMoves(d, i, SlotBytes(slot));
    SlotReadsBack(slot);
  }

  lemma DirectorySlot(slots: seq<Option<Entry>>, i: nat)
    requires WritableSlots(slots) && i < |slots|
    ensures ReadSlot(DirectoryBytes(slots), i) == Filled(slots[i])
  {
    var d := DirectoryBytes(slots);
    assert Holds(d, 0, d);
    PieceHeld(d, 0, Pieces(slots), i);
    HeldSlot(d, i, slots[i]);
  }

  /** A written directory is the directory of its slots. */
  lemma DirectoryReadsBack(slots: seq<Option<Entry>>, root: nat)
    requires WritableSlots(slots) && OneRoot(slots, root)
    ensures IsDirectory(DirectoryBytes(slots), slots, root)
  {
    forall i | 0 <= i < |slots|
      ensures ReadSlot(DirectoryBytes(slots), i) == Filled(slots[i])
    {
      DirectorySlot(slots, i);
    }
    SlotsAreDirectory(DirectoryBytes(slots), slots, root);
  }

  lemma SlotsAreDirectory(d: seq<byte>, slots: seq<Option<Entry>>, root: nat)
    requires OneRoot(slots, root) && |d| == 128 * |slots|
    requires forall i :: 0 <= i < |slots| ==> ReadSlot(d, i) == Filled(slots[i])
    ensures IsDirectory(d, slots, root)
  {
  }

  // ---- DIFAT ---------------------------------------------------------------------------------

  /** `ids` followed by free slots, `n` in all. */
  function Padded(ids: seq<nat>, n: nat): (words: seq<nat>)
    requires |ids| <= n
    ensures |words| == n
    ensures forall i :: 0 <= i < n ==> words[i] == if i < |ids| then ids[i] else FREE_SECTOR
  {
    ids + seq(n - |ids|, _ => 0xffffffff)
  }

  lemma {:induction false} PaddedIsUsed(ids: seq<nat>, n: nat)
    requires |ids| <= n && forall i :: 0 <= i < |ids| ==> ids[i] != FREE_SECTOR
    ensures Used(Padded(ids, n)) == ids
    decreases n
  {
    if ids != [] {
      PaddedIsUsed(ids[1..], n - 1);
      assert Padded(ids, n)[1..] == Padded(ids[1..], n - 1);
      assert ids == [ids[0]] + ids[1..];
    } else if n > 0 {
      PaddedIsUsed(ids, n - 1);
      assert Padded(ids, n)[1..] == Padded(ids, n - 1);
    }
  }

  /** The first sector of a chain that lists `ids`. */
  function First(ids: seq<nat>): nat {
    if ids == [] then 0xfffffffe else ids[0]
  }

  /** Sector numbers: below the special values of [MS-CFB] section 2.1. */
  predicate AllIds(ids: seq<nat>) {
    forall i :: 0 <= i < |ids| ==> ids[i] < 0xfffffffc
  }

  /** How many FAT sector numbers a DIFAT sector has room for. */
  function PerSector(size: nat): nat
    requires size >= 4
  {
    size / 4 - 1
  }

  /** One DIFAT sector: its share of the numbers, then the link to the next sector. */
  function DifatWords(ids: seq<nat>, size: nat, next: nat): (words: seq<nat>)
    requires size >= 4 && |ids| <= PerSector(size) && AllIds(ids) && next < 0x1_0000_0000
    ensures |words| == size / 4 && AllWords(words)
  {
    Padded(ids, PerSector(size)) + [next]
  }

  predicate Room(ids: seq<nat>, sectors: seq<nat>, size: nat)
    requires size >= 4
  {
    |ids| <= |sectors| * PerSector(size)
  }

  function Share(ids: seq<nat>, size: nat): (n: nat)
    requires size >= 4
    ensures n <= |ids| && n <= PerSector(size)
  {
    if |ids| < PerSector(size) then |ids| else PerSector(size)
  }

  lemma RoomForRest(ids: seq<nat>, sectors: seq<nat>, size: nat)
    requires size >= 4 && Room(ids, sectors, size) && sectors != []
    ensures Room(ids[Share(ids, size)..], sectors[1..], size)
  {
    OneLess(|sectors|, PerSector(size));
  }

  lemma OneLess(n: nat, k: nat)
    requires n > 0
    ensures n * k == (n - 1) * k + k && (n - 1) * k >= 0
  {
  }

  /** The DIFAT sectors, in chain order. */
  function DifatBytes(ids: seq<nat>, sectors: seq<nat>, size: nat): (b: seq<byte>)
    requires size >= 4 && size % 4 == 0 && Room(ids, sectors, size) && AllIds(ids) && AllIds(sectors)
    ensures |b| == |sectors| * size
    decreases |sectors|
  {
    if sectors == [] then []
    else
      var n := Share(ids, size);
      RoomForRest(ids, sectors, size);
      OneLess(|sectors|, size);
      WordBytes(DifatWords(ids[..n], size, First(sectors[1..]))) + DifatBytes(ids[n..], sectors[1..], size)
  }

  /** One written DIFAT sector gives its numbers and its link back. */
  lemma DifatSectorReadsBack(b: seq<byte>, size: nat, id: nat, ids: seq<nat>, next: nat)
    requires size >= 4 && size % 4 == 0 && |ids| <= PerSector(size) && AllIds(ids) && next < 0x1_0000_0000
    requires Fits(b, size, size, id) && UnitAt(b, size, size, id) == WordBytes(DifatWords(ids, size, next))
    ensures DifatSectorIds(b, size, id) == ids && DifatNext(b, size, id) == next
  {
    var words := DifatWords(ids, size, next);
    WordsReadBack(words);
    assert words[..PerSector(size)] == Padded(ids, PerSector(size));
    PaddedIsUsed(ids, PerSector(size));
    assert Words(WordBytes(words))[size / 4 - 1] == U32(WordBytes(words), size - 4);
  }

  lemma Associates(a: seq<nat>, b: seq<nat>, c: seq<nat>)
    ensures a + b + c == a + (b + c)
  {
  }

  lemma {:induction false} DifatIdsFront(b: seq<byte>, size: nat, id: nat, rest: seq<nat>)
    requires size >= 4 && Fits(b, size, size, id) && AllFit(b, size, size, rest)
    ensures AllFit(b, size, size, [id] + rest)
    ensures DifatIds(b, size, [id] + rest) == DifatSectorIds(b, size, id) + DifatIds(b, size, rest)
    decreases |rest|
  {
    var path := [id] + rest;
    if rest == [] {
      assert path == [id] && path[..0] == [];
      assert DifatIds(b, size, []) == [];
    } else {
      var last := |rest| - 1;
      DifatIdsFront(b, size, id, rest[..last]);
      var own := DifatSectorIds(b, size, rest[last]);
      calc {
        DifatIds(b, size, path);
      == { assert path[..|rest|] == [id] + rest[..last] && path[|rest|] == rest[last]; }
        DifatIds(b, size, [id] + rest[..last]) + own;
      ==
        DifatSectorIds(b, size, id) + DifatIds(b, size, rest[..last]) + own;
      == { Associates(DifatSectorIds(b, size, id), DifatIds(b, size, rest[..last]), own); }
        DifatSectorIds(b, size, id) + (DifatIds(b, size, rest[..last]) + own);
      ==
        DifatSectorIds(b, size, id) + DifatIds(b, size, rest);
      }
    }
  }

  lemma DifatBytesSplit(b: seq<byte>, size: nat, ids: seq<nat>, sectors: seq<nat>)
    requires size >= 4 && size % 4 == 0 && Room(ids, sectors, size) && AllIds(ids) && AllIds(sectors)
    requires AllFit(b, size, size, sectors) && Gather(b, size, size, sectors) == DifatBytes(ids, sectors, size)
    requires sectors != []
    ensures var n := Share(ids, size);
            && Room(ids[n..], sectors[1..], size)
            && UnitAt(b, size, size, sectors[0]) == WordBytes(DifatWords(ids[..n], size, First(sectors[1..])))
            && Gather(b, size, size, sectors[1..]) == DifatBytes(ids[n..], sectors[1..], size)
  {
    var n := Share(ids, size);
    RoomForRest(ids, sectors, size);
    SplitEqual(UnitAt(b, size, size, sectors[0]), Gather(b, size, size, sectors[1..]),
               WordBytes(DifatWords(ids[..n], size, First(sectors[1..]))), DifatBytes(ids[n..], sectors[1..], size));
  }

  lemma DifatSectorInFront(b: seq<byte>, size: nat, ids: seq<nat>, n: nat, sectors: seq<nat>)
    requires size >= 4 && AllFit(b, size, size, sectors) && sectors != [] && n <= |ids|
    requires DifatSectorIds(b, size, sectors[0]) == ids[..n] && DifatIds(b, size, sectors[1..]) == ids[n..]
    requires DifatPath(b, size, DifatNext(b, size, sectors[0]), sectors[1..], END_OF_CHAIN)
    ensures DifatPath(b, size, sectors[0], sectors, END_OF_CHAIN)
    ensures DifatIds(b, size, sectors) == ids
  {
    DifatIdsFront(b, size, sectors[0], sectors[1..]);
    assert sectors == [sectors[0]] + sectors[1..] && ids == ids[..n] + ids[n..];
  }

  /** The written DIFAT sectors are one path and hold exactly the numbers. */
  lemma {:induction false} DifatReadsBack(b: seq<byte>, size: nat, ids: seq<nat>, sectors: seq<nat>)
    requires size >= 4 && size % 4 == 0 && Room(ids, sectors, size) && AllIds(ids) && AllIds(sectors)
    requires AllFit(b, size, size, sectors) && Gather(b, size, size, sectors) == DifatBytes(ids, sectors, size)
    ensures DifatPath(b, size, First(sectors), sectors, END_OF_CHAIN)
    ensures DifatIds(b, size, sectors) == ids
    decreases |sectors|
  {
    if sectors != [] {
      var n := Share(ids, size);
      RoomForRest(ids, sectors, size);
      DifatBytesSplit(b, size, ids, sectors);
      DifatSectorReadsBack(b, size, sectors[0], ids[..n], First(sectors[1..]));
      DifatReadsBack(b, size, ids[n..], sectors[1..]);
      DifatSectorInFront(b, size, ids, n, sectors);
    }
  }

  lemma SplitEqual(a: seq<byte>, b: seq<byte>, c: seq<byte>, d: seq<byte>)
    requires a + b == c + d && |a| == |c|
    ensures a == c && b == d
  {
    assert a == (a + b)[..|a|] && c == (c + d)[..|c|];
    assert b == (a + b)[|a|..] && d == (c + d)[|c|..];
  }

  // ---- Header --------------------------------------------------------------------------------

  /** The header's numbers fit their fields. */
  predicate WritableHeader(h: Header) {
    && (h.sectorSize == 512 || h.sectorSize == 4096)
    && AllWords(HeaderWords(h))
  }

  function HeaderWords(h: Header): seq<nat> {
    [h.fatSectors, h.firstDirectory, 0, 4096, h.firstMiniFat, h.miniFatSectors, h.firstDifat,
     h.difatSectors]
  }

  /** Minor version, major version, byte order, sector shift, mini sector shift. */
  function Versions(size: nat): (units: seq<nat>)
    ensures AllUnits(units)
  {
    if size == 512 then [0x3e, 3, 0xfffe, 9, 6] else [0x3e, 4, 0xfffe, 12, 6]
  }

  /** The 512 bytes of a header with its 109 DIFAT slots. */
  function HeaderBytes(h: Header, difat: seq<nat>): (b: seq<byte>)
    requires WritableHeader(h) && |difat| == 109 && AllWords(difat)
    ensures |b| == 512
  {
    ([0xd0, 0xcf, 0x11, 0xe0, 0xa1, 0xb1, 0x1a, 0xe1] + Zeros(16))
    + ((UnitBytes(Versions(h.sectorSize)) + Zeros(10)) + (WordBytes(HeaderWords(h)) + WordBytes(difat)))
  }

  /** Where each part of a held header sits. */
  lemma HeaderParts(b: seq<byte>, h: Header, difat: seq<nat>)
    requires WritableHeader(h) && |difat| == 109 && AllWords(difat) && Holds(b, 0, HeaderBytes(h, difat))
    ensures Holds(b, 0, SIGNATURE) && Holds(b, 0x18, UnitBytes(Versions(h.sectorSize)))
    ensures Holds(b, 0x2c, WordBytes(HeaderWords(h))) && Holds(b, 0x4c, WordBytes(difat))
  {
    var versions, words := UnitBytes(Versions(h.sectorSize)), WordBytes(HeaderWords(h));
    HoldsSplit(b, 0, SIGNATURE + Zeros(16), (versions + Zeros(10)) + (words + WordBytes(difat)));
    HoldsSplit(b, 0, SIGNATURE, Zeros(16));
    HoldsSplit(b, 0x18, versions + Zeros(10), words + WordBytes(difat));
    HoldsSplit(b, 0x18, versions, Zeros(10));
    HoldsSplit(b, 0x2c, words, WordBytes(difat));
  }

  lemma HeaderUnits(b: seq<byte>, size: nat)
    requires size == 512 || size == 4096
    requires Holds(b, 0x18, UnitBytes(Versions(size)))
    ensures U16(b, 0x1a) == (if size == 512 then 3 else 4) && U16(b, 0x1c) == 0xfffe
    ensures U16(b, 0x1e) == (if size == 512 then 9 else 12) && U16(b, 0x20) == 6
  {
    HeldUnit(b, 0x18, Versions(size), 1);
    HeldUnit(b, 0x18, Versions(size), 2);
    HeldUnit(b, 0x18, Versions(size), 3);
    HeldUnit(b, 0x18, Versions(size), 4);
  }

  lemma HeaderNumbers(b: seq<byte>, h: Header)
    requires WritableHeader(h) && Holds(b, 0x2c, WordBytes(HeaderWords(h)))
    ensures U32(b, 0x2c) == h.fatSectors && U32(b, 0x30) == h.firstDirectory && U32(b, 0x38) == MINI_STREAM_CUTOFF
    ensures U32(b, 0x3c) == h.firstMiniFat && U32(b, 0x40) == h.miniFatSectors
    ensures U32(b, 0x44) == h.firstDifat && U32(b, 0x48) == h.difatSectors
  {
    HeldWord(b, 0x2c, HeaderWords(h), 0);
    HeldWord(b, 0x2c, HeaderWords(h), 1);
    HeldWord(b, 0x2c, HeaderWords(h), 3);
    HeldWord(b, 0x2c, HeaderWords(h), 4);
    HeldWord(b, 0x2c, HeaderWords(h), 5);
    HeldWord(b, 0x2c, HeaderWords(h), 6);
    HeldWord(b, 0x2c, HeaderWords(h), 7);
  }

  lemma HeaderAccepted(b: seq<byte>, h: Header)
    requires WritableHeader(h) && Holds(b, 0, SIGNATURE) && Holds(b, 0x18, UnitBytes(Versions(h.sectorSize)))
    requires Holds(b, 0x2c, WordBytes(HeaderWords(h))) && 512 <= |b|
    requires h.sectorSize <= |b| && |b| % h.sectorSize == 0
    requires h.fatSectors <= SectorCount(b, h.sectorSize) && h.difatSectors <= SectorCount(b, h.sectorSize)
    ensures ReadHeader(b) == Some(h)
  {
    HeaderUnits(b, h.sectorSize);
    HeaderNumbers(b, h);
    assert b[..8] == SIGNATURE;
    WholeSectors(|b|, h.sectorSize);
  }

  /** A buffer of whole sectors that starts with a written header reads back as that header. */
  lemma HeaderReadsBack(b: seq<byte>, h: Header, difat: seq<nat>)
    requires WritableHeader(h) && |difat| == 109 && AllWords(difat) && Holds(b, 0, HeaderBytes(h, difat))
    requires h.sectorSize <= |b| && |b| % h.sectorSize == 0
    requires h.fatSectors <= SectorCount(b, h.sectorSize) && h.difatSectors <= SectorCount(b, h.sectorSize)
    ensures ReadHeader(b) == Some(h) && Words(b[0x4c..0x200]) == difat
  {
    assert Words(b[0x4c..0x200]) == difat by {
      HeaderParts(b, h, difat);
      assert b[0x4c..0x200] == WordBytes(difat);
      WordsReadBack(difat);
    }
    HeaderParts(b, h, difat);
    HeaderAccepted(b, h);
  }
}
