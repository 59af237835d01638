/** Whole compound files: a writer, and the proof that the reader gives back what was written. */
module CompoundLayout {
  import opened Bytes
  import opened Wrappers
  import opened SectorChains
  import opened DirectoryTrees
  import opened CompoundFiles
  import opened CompoundStreams
  import opened CompoundRecords

  // ---- Several data in one store -------------------------------------------------------------

  /** Data and the units that it is written into. */
  datatype Item = Item(ids: seq<nat>, data: seq<byte>)

  ghost predicate Disjoint(a: seq<nat>, b: seq<nat>) {
    forall id :: id in a ==> id !in b
  }

  /** No unit is used twice. */
  ghost predicate Apart(items: seq<Item>) {
    && (forall i :: 0 <= i < |items| ==> Distinct(items[i].ids))
    && (forall i, j :: 0 <= i < j < |items| ==> Disjoint(items[i].ids, items[j].ids))
  }

  /** Every unit lies inside the store, and the units have room for the data. */
  predicate Housed(bytes: seq<byte>, base: nat, unit: nat, items: seq<Item>) {
    forall i :: 0 <= i < |items| ==>
      AllFit(bytes, base, unit, items[i].ids) && |items[i].data| <= |items[i].ids| * unit
  }

  function Fill(bytes: seq<byte>, base: nat, unit: nat, items: seq<Item>): (out: seq<byte>)
    requires Housed(bytes, base, unit, items)
    ensures |out| == |bytes|
    decreases |items|
  {
    if items == [] then bytes
    else Fill(WriteUnits(bytes, base, unit, items[0].ids, items[0].data), base, unit, items[1..])
  }

  lemma {:induction false} FillElsewhere(bytes: seq<byte>, base: nat, unit: nat, items: seq<Item>, id: nat)
    requires Housed(bytes, base, unit, items) && Fits(bytes, base, unit, id)
    requires forall i :: 0 <= i < |items| ==> id !in items[i].ids
    ensures UnitAt(Fill(bytes, base, unit, items), base, unit, id) == UnitAt(bytes, base, unit, id)
    decreases |items|
  {
    if items != [] {
      var next := WriteUnits(bytes, base, unit, items[0].ids, items[0].data);
      WriteUnitsElsewhere(bytes, base, unit, items[0].ids, items[0].data, id);
      FillElsewhere(next, base, unit, items[1..], id);
    }
  }

  lemma {:induction false} GatherKept(a: seq<byte>, b: seq<byte>, base: nat, unit: nat, ids: seq<nat>)
    requires AllFit(a, base, unit, ids) && AllFit(b, base, unit, ids)
    requires forall i :: 0 <= i < |ids| ==> UnitAt(a, base, unit, ids[i]) == UnitAt(b, base, unit, ids[i])
    ensures Gather(a, base, unit, ids) == Gather(b, base, unit, ids)
  {
    if ids != [] {
      GatherKept(a, b, base, unit, ids[1..]);
    }
  }

  /** Each of the written data is gathered from its own units. */
  lemma {:induction false} FilledIsGathered(bytes: seq<byte>, base: nat, unit: nat, items: seq<Item>, k: nat)
    requires unit > 0 && Apart(items) && Housed(bytes, base, unit, items) && k < |items|
    ensures Gather(Fill(bytes, base, unit, items), base, unit, items[k].ids)[..|items[k].data|] == items[k].data
    decreases |items|
  {
    var ids := items[0].ids;
    var next := WriteUnits(bytes, base, unit, ids, items[0].data);
    if k == 0 {
      WrittenIsGathered(bytes, base, unit, ids, items[0].data);
      forall i | 0 <= i < |ids|
        ensures UnitAt(Fill(next, base, unit, items[1..]), base, unit, ids[i]) == UnitAt(next, base, unit, ids[i])
      {
        FillElsewhere(next, base, unit, items[1..], ids[i]);
      }
      GatherKept(next, Fill(next, base, unit, items[1..]), base, unit, ids);
    } else {
      FilledIsGathered(next, base, unit, items[1..], k - 1);
    }
  }

  lemma {:induction false} WriteUnitsPrefix(bytes: seq<byte>, base: nat, unit: nat, ids: seq<nat>, data: seq<byte>)
    requires AllFit(bytes, base, unit, ids) && base <= |bytes|
    ensures WriteUnits(bytes, base, unit, ids, data)[..base] == bytes[..base]
    decreases |ids|
  {
    if ids != [] {
      var n := Min(unit, |data|);
      var next := Overwrite(bytes, UnitStart(base, unit, ids[0]), data[..n]);
      assert UnitStart(base, unit, ids[0]) >= base;
      assert next[..base] == bytes[..base];
      WriteUnitsPrefix(next, base, unit, ids[1..], data[n..]);
    }
  }

  /** What stands before the units stays. */
  lemma {:induction false} FillPrefix(bytes: seq<byte>, base: nat, unit: nat, items: seq<Item>)
    requires Housed(bytes, base, unit, items) && base <= |bytes|
    ensures Fill(bytes, base, unit, items)[..base] == bytes[..base]
    decreases |items|
  {
    if items != [] {
      WriteUnitsPrefix(bytes, base, unit, items[0].ids, items[0].data);
      FillPrefix(WriteUnits(bytes, base, unit, items[0].ids, items[0].data), base, unit, items[1..]);
    }
  }

  // ---- Several chains in one table -----------------------------------------------------------

  predicate InTable(table: seq<nat>, items: seq<Item>) {
    forall i, j :: 0 <= i < |items| && 0 <= j < |items[i].ids| ==> Allocatable(table, items[i].ids[j])
  }

  /** Links the units of every item. */
  function LinkAll(table: seq<nat>, items: seq<Item>): (out: seq<nat>)
    requires InTable(table, items)
    ensures |out| == |table|
    decreases |items|
  {
    if items == [] then table else LinkAll(LinkUnits(table, items[0].ids), items[1..])
  }

  lemma {:induction false} LinkAllElsewhere(table: seq<nat>, items: seq<Item>, id: nat)
    requires InTable(table, items) && id < |table| && forall i :: 0 <= i < |items| ==> id !in items[i].ids
    ensures LinkAll(table, items)[id] == table[id]
    decreases |items|
  {
    if items != [] {
      LinkUnitsElsewhere(table, items[0].ids, id);
      LinkAllElsewhere(LinkUnits(table, items[0].ids), items[1..], id);
    }
  }

  lemma {:induction false} ChainKept(a: seq<nat>, b: seq<nat>, start: nat, path: seq<nat>)
    requires |a| == |b| && IsChain(a, start, path)
    requires forall i :: 0 <= i < |path| && path[i] < |a| ==> a[path[i]] == b[path[i]]
    ensures IsChain(b, start, path)
    decreases |path|
  {
    if path != [] {
      ChainKept(a, b, a[start], path[1..]);
    }
  }

  /** In the linked table the units of each item are one chain: for all data in units of their own there is
      an allocation table. */
  lemma {:induction false} AllLinked(table: seq<nat>, items: seq<Item>, k: nat)
    requires Apart(items) && InTable(table, items) && k < |items|
    ensures IsChain(LinkAll(table, items), First(items[k].ids), items[k].ids)
    decreases |items|
  {
    var ids := items[0].ids;
    var next := LinkUnits(table, ids);
    if k == 0 {
      LinkedIsChain(table, ids);
      forall i | 0 <= i < |ids|
        ensures LinkAll(next, items[1..])[ids[i]] == next[ids[i]]
      {
        LinkAllElsewhere(next, items[1..], ids[i]);
      }
      ChainKept(next, LinkAll(next, items[1..]), First(ids), ids);
    } else {
      AllLinked(next, items[1..], k - 1);
    }
  }

  // ---- Whole files ---------------------------------------------------------------------------

  /** Sector numbers end here ([MS-CFB] section 2.1, MAXREGSECT). */
  const MAX_SECTORS: nat := 0xfffffffa

  /** What a writer decides: the sector size, the tables, the directory, which sectors hold what, and the
      streams, short ones in the mini stream. */
  datatype Plan = Plan(
    sectorSize: nat,
    sectors: nat,
    fat: seq<nat>,
    fatSectors: seq<nat>,
    difatSectors: seq<nat>,
    slots: seq<Option<Entry>>,
    root: nat,
    directory: seq<nat>,
    miniFat: seq<nat>,
    miniFatSectors: seq<nat>,
    rootStream: seq<nat>,
    short: seq<Item>,
    long: seq<Item>)
  {
    /** The sector lists have the lengths of what they hold. */
    predicate Sized() {
      && (sectorSize == 512 || sectorSize == 4096) && sectors <= MAX_SECTORS
      && AllWords(fat) && 4 * |fat| == |fatSectors| * sectorSize
      && AllWords(miniFat) && 4 * |miniFat| == |miniFatSectors| * sectorSize
      && WritableSlots(slots) && OneRoot(slots, root) && 128 * |slots| == |directory| * sectorSize
      && AllIds(fatSectors) && AllIds(difatSectors) && Room(InDifat(), difatSectors, sectorSize)
      && Housed(Zeros(slots[root].value.size), 0, 64, short)
    }

    /** The FAT sector numbers in the header, and the others. */
    function InHeader(): (ids: seq<nat>)
      ensures |ids| <= 109
    {
      fatSectors[..Min(109, |fatSectors|)]
    }

    function InDifat(): seq<nat> {
      fatSectors[Min(109, |fatSectors|)..]
    }

    function MiniStream(): (bytes: seq<byte>)
      requires Sized()
      ensures |bytes| == slots[root].value.size
    {
      Fill(Zeros(slots[root].value.size), 0, 64, short)
    }

    /** Everything that is written into sectors. */
    function Regions(): (items: seq<Item>)
      requires Sized()
      ensures |items| == 5 + |long| && items[5..] == long
    {
      [Item(fatSectors, WordBytes(fat)), Item(difatSectors, DifatBytes(InDifat(), difatSectors, sectorSize)),
       Item(directory, DirectoryBytes(slots)), Item(miniFatSectors, WordBytes(miniFat)),
       Item(rootStream, MiniStream())] + long
    }

    function HeaderOf(): Header {
      Header(sectorSize, |fatSectors|, First(directory), First(miniFatSectors), |miniFatSectors|,
             First(difatSectors), |difatSectors|)
    }

    /** No sector holds two things, and every sector is one of the file's. */
    ghost predicate Placed()
      requires Sized()
    {
      && Apart(Regions()) && Apart(short)
      && forall i :: 0 <= i < |Regions()| ==>
           var item := Regions()[i];
           && (forall j :: 0 <= j < |item.ids| ==> item.ids[j] < sectors)
           && |item.data| <= |item.ids| * sectorSize
    }

    /** The tables link the sectors of each stream into its chain. */
    ghost predicate Linked()
      requires Sized()
    {
      var root := slots[root].value;
      && IsChain(fat, First(directory), directory) && IsChain(fat, First(miniFatSectors), miniFatSectors)
      && (if root.size == 0 then rootStream == [] else IsChain(fat, root.startSector, rootStream))
      && (forall i :: 0 <= i < |long| ==>
            && IsChain(fat, First(long[i].ids), long[i].ids)
            && (4096 <= |long[i].data| || long[i].data == [])
            && |long[i].ids| == CeilDiv(|long[i].data|, sectorSize))
      && (forall i :: 0 <= i < |short| ==>
            && IsChain(miniFat, First(short[i].ids), short[i].ids)
            && |short[i].data| < 4096
            && |short[i].ids| == CeilDiv(|short[i].data|, 64))
    }

    ghost predicate Valid(tree: Tree) {
      Sized() && Placed() && Linked() && IsEntryMap(slots, root, tree, EntriesOf(tree))
    }

    /** The header sector, then empty sectors. */
    function Blank(): (b: seq<byte>)
      requires Sized() && WritableHeader(HeaderOf())
      ensures |b| == sectorSize + sectors * sectorSize
      ensures Holds(b, 0, HeaderBytes(HeaderOf(), Padded(InHeader(), 109)))
    {
      HeaderBytes(HeaderOf(), Padded(InHeader(), 109)) + Zeros(sectorSize - 512 + sectors * sectorSize)
    }

    /** The file. */
    function Build(): (b: seq<byte>)
      requires Sized() && WritableHeader(HeaderOf()) && Housed(Blank(), sectorSize, sectorSize, Regions())
      ensures |b| == sectorSize + sectors * sectorSize
    {
      Fill(Blank(), sectorSize, sectorSize, Regions())
    }
  }

  // ---- The file is well formed ---------------------------------------------------------------

  lemma DistinctBound(ids: seq<nat>, n: nat)
    requires Distinct(ids) && forall i :: 0 <= i < |ids| ==> ids[i] < n
    ensures |ids| <= n
  {
    var members := set i | 0 <= i < |ids| :: ids[i];
    DistinctCount(ids);
    BoundedSize(members, n);
  }

  lemma {:induction false} DistinctCount(ids: seq<nat>)
    requires Distinct(ids)
    ensures |set i | 0 <= i < |ids| :: ids[i]| == |ids|
  {
    var members := set i | 0 <= i < |ids| :: ids[i];
    if ids == [] {
      assert members == {};
    } else {
      var last := |ids| - 1;
      DistinctCount(ids[..last]);
      assert members == (set i | 0 <= i < last :: ids[..last][i]) + {ids[last]};
    }
  }

  lemma SectorsFit(b: seq<byte>, size: nat, sectors: nat, ids: seq<nat>)
    requires |b| == size + sectors * size && forall i :: 0 <= i < |ids| ==> ids[i] < sectors
    ensures AllFit(b, size, size, ids)
  {
    forall i | 0 <= i < |ids|
      ensures Fits(b, size, size, ids[i])
    {
      assert (ids[i] + 1) * size <= sectors * size;
    }
  }

  /** Every region lies inside a file of the planned length, in no more sectors than there are. */
  lemma RegionFits(p: Plan, b: seq<byte>, k: nat)
    requires p.Sized() && p.Placed() && |b| == p.sectorSize + p.sectors * p.sectorSize && k < |p.Regions()|
    ensures AllFit(b, p.sectorSize, p.sectorSize, p.Regions()[k].ids) && |p.Regions()[k].ids| <= p.sectors
  {
    SectorsFit(b, p.sectorSize, p.sectors, p.Regions()[k].ids);
    DistinctBound(p.Regions()[k].ids, p.sectors);
  }

  lemma RegionBound(p: Plan, k: nat, ids: seq<nat>)
    requires p.Sized() && p.Placed() && k < |p.Regions()| && p.Regions()[k].ids == ids
    ensures |ids| <= p.sectors && First(ids) <= END_OF_CHAIN
  {
    assert Distinct(p.Regions()[k].ids);
    DistinctBound(ids, p.sectors);
  }

  /** A valid plan can be written. */
  lemma PlanIsWritable(p: Plan)
    requires p.Sized() && p.Placed()
    ensures WritableHeader(p.HeaderOf()) && Housed(p.Blank(), p.sectorSize, p.sectorSize, p.Regions())
    ensures |p.fatSectors| <= p.sectors && |p.difatSectors| <= p.sectors
  {
    RegionBound(p, 0, p.fatSectors);
    RegionBound(p, 1, p.difatSectors);
    RegionBound(p, 2, p.directory);
    RegionBound(p, 3, p.miniFatSectors);
    HeaderFits(p.HeaderOf(), p.sectors);
    BlankHouses(p);
  }

  lemma HeaderFits(h: Header, sectors: nat)
    requires (h.sectorSize == 512 || h.sectorSize == 4096) && sectors <= MAX_SECTORS
    requires h.fatSectors <= sectors && h.miniFatSectors <= sectors && h.difatSectors <= sectors
    requires h.firstDirectory <= END_OF_CHAIN && h.firstMiniFat <= END_OF_CHAIN && h.firstDifat <= END_OF_CHAIN
    ensures WritableHeader(h)
  {
  }

  lemma BlankHouses(p: Plan)
    requires p.Sized() && p.Placed() && WritableHeader(p.HeaderOf())
    ensures Housed(p.Blank(), p.sectorSize, p.sectorSize, p.Regions())
  {
    forall k | 0 <= k < |p.Regions()|
      ensures AllFit(p.Blank(), p.sectorSize, p.sectorSize, p.Regions()[k].ids)
    {
      RegionFits(p, p.Blank(), k);
    }
  }

  /** `b` holds the plan's header and, in each region's sectors, the region's data. */
  ghost predicate Laid(b: seq<byte>, p: Plan)
    requires p.Sized()
  {
    && |b| == p.sectorSize + p.sectors * p.sectorSize
    && WritableHeader(p.HeaderOf()) && Holds(b, 0, HeaderBytes(p.HeaderOf(), Padded(p.InHeader(), 109)))
    && forall k :: 0 <= k < |p.Regions()| ==> HoldsItem(b, p.sectorSize, p.Regions()[k])
  }

  ghost predicate HoldsItem(b: seq<byte>, size: nat, item: Item) {
    && AllFit(b, size, size, item.ids) && |item.data| <= |item.ids| * size
    && Gather(b, size, size, item.ids)[..|item.data|] == item.data
  }

  lemma BuiltIsLaid(p: Plan)
    requires p.Sized() && p.Placed()
    ensures WritableHeader(p.HeaderOf()) && Housed(p.Blank(), p.sectorSize, p.sectorSize, p.Regions())
    ensures Laid(p.Build(), p)
  {
    PlanIsWritable(p);
    BuiltHeader(p);
    FilledHoldsItems(p.Blank(), p.sectorSize, p.Regions());
  }

  lemma BuiltHeader(p: Plan)
    requires p.Sized() && WritableHeader(p.HeaderOf())
    requires Housed(p.Blank(), p.sectorSize, p.sectorSize, p.Regions())
    ensures Holds(p.Build(), 0, HeaderBytes(p.HeaderOf(), Padded(p.InHeader(), 109)))
  {
    FillPrefix(p.Blank(), p.sectorSize, p.sectorSize, p.Regions());
    SamePrefix(p.Blank(), p.Build(), p.sectorSize, HeaderBytes(p.HeaderOf(), Padded(p.InHeader(), 109)));
  }

  lemma FilledHoldsItems(blank: seq<byte>, size: nat, items: seq<Item>)
    requires size > 0 && Apart(items) && Housed(blank, size, size, items)
    ensures forall k :: 0 <= k < |items| ==> HoldsItem(Fill(blank, size, size, items), size, items[k])
  {
    forall k | 0 <= k < |items|
      ensures HoldsItem(Fill(blank, size, size, items), size, items[k])
    {
      FilledIsGathered(blank, size, size, items, k);
    }
  }

  lemma SamePrefix(a: seq<byte>, b: seq<byte>, n: nat, part: seq<byte>)
    requires n <= |a| && n <= |b| && a[..n] == b[..n] && |part| <= n && Holds(a, 0, part)
    ensures Holds(b, 0, part)
  {
    assert b[0..|part|] == b[..n][..|part|];
    assert a[0..|part|] == a[..n][..|part|];
  }

  // ---- The reader gives back what was planned ------------------------------------------------

  /** The compound file that the plan describes. */
  ghost function FileOf(b: seq<byte>, p: Plan, tree: Tree): CompoundFile
    requires p.Sized()
  {
    CompoundFile(b, p.sectorSize, p.fat, p.miniFat, p.MiniStream(), EntriesOf(tree))
  }

  ghost function EvidenceOf(p: Plan, tree: Tree): Evidence {
    Evidence(p.difatSectors, p.directory, p.slots, p.root, tree, p.miniFatSectors, p.rootStream)
  }

  lemma WholeFile(b: seq<byte>, size: nat, sectors: nat)
    requires (size == 512 || size == 4096) && |b| == size + sectors * size
    ensures |b| % size == 0 && size <= |b| && SectorCount(b, size) == sectors
  {
    if size == 512 {
      assert |b| == 512 * (sectors + 1);
    } else {
      assert |b| == 4096 * (sectors + 1);
    }
  }

  lemma LaidHeader(b: seq<byte>, p: Plan)
    requires p.Sized() && p.Placed() && Laid(b, p)
    ensures |b| % p.sectorSize == 0 && p.sectorSize <= |b| && SectorCount(b, p.sectorSize) == p.sectors
    ensures ReadHeader(b) == Some(p.HeaderOf()) && Words(b[0x4c..0x200]) == Padded(p.InHeader(), 109)
  {
    WholeFile(b, p.sectorSize, p.sectors);
    PlanIsWritable(p);
    HeaderReadsBack(b, p.HeaderOf(), Padded(p.InHeader(), 109));
  }

  lemma LaidRegion(b: seq<byte>, p: Plan, k: nat)
    requires p.Sized() && Laid(b, p) && k < |p.Regions()|
    requires |p.Regions()[k].data| == |p.Regions()[k].ids| * p.sectorSize
    ensures AllFit(b, p.sectorSize, p.sectorSize, p.Regions()[k].ids)
    ensures Gather(b, p.sectorSize, p.sectorSize, p.Regions()[k].ids) == p.Regions()[k].data
  {
    assert HoldsItem(b, p.sectorSize, p.Regions()[k]);
  }

  lemma DifatLaid(b: seq<byte>, size: nat, head: seq<nat>, rest: seq<nat>, sectors: seq<nat>)
    requires |b| >= 512 && size >= 4 && size % 4 == 0 && |head| <= 109
    requires AllIds(head) && AllIds(rest) && AllIds(sectors) && Room(rest, sectors, size)
    requires Words(b[0x4c..0x200]) == Padded(head, 109)
    requires AllFit(b, size, size, sectors) && Gather(b, size, size, sectors) == DifatBytes(rest, sectors, size)
    ensures DifatPath(b, size, First(sectors), sectors, END_OF_CHAIN)
    ensures Difat(b, size, sectors) == head + rest
  {
    DifatReadsBack(b, size, rest, sectors);
    PaddedIsUsed(head, 109);
  }

  lemma LaidDifatSectors(b: seq<byte>, p: Plan)
    requires p.Sized() && p.Placed() && Laid(b, p)
    ensures Distinct(p.difatSectors) && AllFit(b, p.sectorSize, p.sectorSize, p.difatSectors)
    ensures Gather(b, p.sectorSize, p.sectorSize, p.difatSectors)
         == DifatBytes(p.InDifat(), p.difatSectors, p.sectorSize)
  {
    assert p.Regions()[1] == Item(p.difatSectors, DifatBytes(p.InDifat(), p.difatSectors, p.sectorSize));
    LaidRegion(b, p, 1);
  }

  lemma LaidDifat(b: seq<byte>, p: Plan)
    requires p.Sized() && p.Placed() && Laid(b, p) && |b| >= 512
    requires Words(b[0x4c..0x200]) == Padded(p.InHeader(), 109)
    ensures IsDifat(b, p.HeaderOf(), p.difatSectors) && AllFit(b, p.sectorSize, p.sectorSize, p.difatSectors)
    ensures Difat(b, p.sectorSize, p.difatSectors) == p.fatSectors
  {
    LaidDifatSectors(b, p);
    InHeaderOrNot(p.fatSectors, Min(109, |p.fatSectors|));
    DifatLaid(b, p.sectorSize, p.InHeader(), p.InDifat(), p.difatSectors);
  }

  lemma InHeaderOrNot(ids: seq<nat>, n: nat)
    requires AllIds(ids) && n <= |ids|
    ensures AllIds(ids[..n]) && AllIds(ids[n..]) && ids[..n] + ids[n..] == ids
  {
  }

  lemma LaidFat(b: seq<byte>, p: Plan)
    requires p.Sized() && p.Placed() && Laid(b, p) && ReadHeader(b) == Some(p.HeaderOf())
    requires Words(b[0x4c..0x200]) == Padded(p.InHeader(), 109)
    ensures IsFat(b, p.HeaderOf(), p.fat, p.difatSectors)
  {
    LaidDifat(b, p);
    assert p.Regions()[0] == Item(p.fatSectors, WordBytes(p.fat));
    LaidRegion(b, p, 0);
    WordsReadBack(p.fat);
    assert p.fatSectors[..|p.fatSectors|] == p.fatSectors;
  }

  lemma LaidDirectory(b: seq<byte>, p: Plan)
    requires p.Sized() && p.Placed() && p.Linked() && Laid(b, p) && ReadHeader(b) == Some(p.HeaderOf())
    requires SectorCount(b, p.sectorSize) == p.sectors
    ensures IsDirectoryStream(b, p.HeaderOf(), p.fat, p.directory, p.slots, p.root)
  {
    assert p.Regions()[2] == Item(p.directory, DirectoryBytes(p.slots));
    LaidRegion(b, p, 2);
    RegionFits(p, b, 2);
    DirectoryReadsBack(p.slots, p.root);
  }

  lemma LaidMiniFat(b: seq<byte>, p: Plan)
    requires p.Sized() && p.Placed() && p.Linked() && Laid(b, p) && ReadHeader(b) == Some(p.HeaderOf())
    ensures IsMiniFat(b, p.HeaderOf(), p.fat, p.miniFatSectors, p.miniFat)
  {
    assert p.Regions()[3] == Item(p.miniFatSectors, WordBytes(p.miniFat));
    LaidRegion(b, p, 3);
    WordsReadBack(p.miniFat);
  }

  lemma LaidRootStream(b: seq<byte>, p: Plan)
    requires p.Sized() && p.Placed() && p.Linked() && Laid(b, p)
    requires |b| % p.sectorSize == 0 && p.sectorSize <= |b| && SectorCount(b, p.sectorSize) == p.sectors
    ensures IsRootStream(b, p.sectorSize, p.fat, p.slots[p.root].value, p.rootStream, p.MiniStream())
  {
    assert p.Regions()[4] == Item(p.rootStream, p.MiniStream());
    assert HoldsItem(b, p.sectorSize, p.Regions()[4]);
    RegionFits(p, b, 4);
  }

  /** Whatever the writer decides, a buffer in which a valid plan is laid describes exactly the planned file. */
  lemma LaidIsDescribed(b: seq<byte>, p: Plan, tree: Tree)
    requires p.Valid(tree) && Laid(b, p)
    ensures Describes(b, FileOf(b, p, tree), EvidenceOf(p, tree))
  {
    LaidHeader(b, p);
    LaidFat(b, p);
    LaidDirectory(b, p);
    LaidMiniFat(b, p);
    LaidRootStream(b, p);
  }

  /** A short stream of a laid-out file is held by its units of the mini stream. */
  lemma ShortIsHeld(b: seq<byte>, p: Plan, tree: Tree, k: nat)
    requires p.Valid(tree) && k < |p.short|
    ensures var s := StoreOf(FileOf(b, p, tree), |p.short[k].data|);
            && Holding(s, First(p.short[k].ids), |p.short[k].data|, p.short[k].ids)
            && StreamBytes(s, |p.short[k].data|, p.short[k].ids) == p.short[k].data
  {
    FilledIsGathered(Zeros(p.slots[p.root].value.size), 0, MINI_SECTOR_SIZE, p.short, k);
  }

  /** A long stream of a laid-out file is held by its sectors. */
  lemma LongIsHeld(b: seq<byte>, p: Plan, tree: Tree, k: nat)
    requires p.Valid(tree) && Laid(b, p) && k < |p.long|
    ensures var s := StoreOf(FileOf(b, p, tree), |p.long[k].data|);
            && Holding(s, First(p.long[k].ids), |p.long[k].data|, p.long[k].ids)
            && StreamBytes(s, |p.long[k].data|, p.long[k].ids) == p.long[k].data
  {
    assert p.Regions()[5 + k] == p.Regions()[5..][k] == p.long[k];
    assert HoldsItem(b, p.sectorSize, p.Regions()[5 + k]);
  }

  /** Each item of a laid-out file is held by its own units. */
  lemma ItemIsHeld(b: seq<byte>, p: Plan, tree: Tree, item: Item)
    requires p.Valid(tree) && Laid(b, p) && item in p.short + p.long
    ensures var s := StoreOf(FileOf(b, p, tree), |item.data|);
            && Holding(s, First(item.ids), |item.data|, item.ids)
            && StreamBytes(s, |item.data|, item.ids) == item.data
  {
    if item in p.short {
      var k :| 0 <= k < |p.short| && p.short[k] == item;
      ShortIsHeld(b, p, tree, k);
    } else {
      var k :| 0 <= k < |p.long| && p.long[k] == item;
      LongIsHeld(b, p, tree, k);
    }
  }

  /** Parsing accepts a file that was written, and finds in it exactly what was planned. */
  method WriteAndParse(p: Plan, ghost tree: Tree) returns (c: CompoundFile)
    requires p.Valid(tree)
    ensures WritableHeader(p.HeaderOf()) && Housed(p.Blank(), p.sectorSize, p.sectorSize, p.Regions())
    ensures Laid(p.Build(), p) && c.Valid() && c == FileOf(p.Build(), p, tree)
  {
    BuiltIsLaid(p);
    var b := p.Build();
    LaidIsDescribed(b, p, tree);
    var parsed, ev := Parse(b);
    c := parsed.value;
    DescribesUnique(b, c, ev, FileOf(b, p, tree), EvidenceOf(p, tree));
  }

  /** Writes a file and reads one of its streams: the entry is found by its name, and its data come back. */
  method WriteAndRead(p: Plan, ghost tree: Tree, ghost e: Entry, name: seq<nat>, ghost item: Item)
    returns (r: Option<seq<byte>>)
    requires p.Valid(tree) && item in p.short + p.long && e in EntriesOf(tree)
    requires e.name == name && e.kind == 2 && e.size == |item.data| && e.startSector == First(item.ids)
    ensures r == Some(item.data)
  {
    var c := WriteAndParse(p, tree);
    ItemIsHeld(p.Build(), p, tree, item);
    r := ReadHeld(c, e, name, item.ids, item.data);
  }
}
