/** A valid plan for any streams: consecutive sectors for the FAT, the DIFAT, the directory, the mini FAT, the mini
    stream and the long streams, in either sector size and with as many DIFAT sectors as the FAT needs. */
module CompoundPacking {
  import opened Bytes
  import opened Wrappers
  import opened SectorChains
  import opened DirectoryTrees
  import opened CompoundFiles
  import opened CompoundStreams
  import opened CompoundRecords
  import opened CompoundLayout

  // ---- Consecutive ranges --------------------------------------------------------------------

  /** The sum of the first `k` counts. */
  function SumTo(counts: seq<nat>, k: nat): nat
    requires k <= |counts|
  {
    if k == 0 then 0 else SumTo(counts, k - 1) + counts[k - 1]
  }

  lemma {:induction false} SumGrows(counts: seq<nat>, i: nat, j: nat)
    requires i < j <= |counts|
    ensures SumTo(counts, i) + counts[i] <= SumTo(counts, j)
  {
    if i < j - 1 {
      SumGrows(counts, i, j - 1);
    }
  }

  /** The `k`-th of consecutive ranges with the given lengths. */
  function Range(counts: seq<nat>, k: nat): (ids: seq<nat>)
    requires k < |counts|
    ensures |ids| == counts[k] && forall i :: 0 <= i < |ids| ==> ids[i] == SumTo(counts, k) + i
  {
    seq(counts[k], i requires 0 <= i < counts[k] => IdAt(counts, k, i))
  }

  function IdAt(counts: seq<nat>, k: nat, i: nat): nat
    requires k < |counts|
  {
    SumTo(counts, k) + i
  }

  /** Each item has its own range. */
  ghost predicate InRanges(items: seq<Item>, counts: seq<nat>) {
    |items| <= |counts| && forall k :: 0 <= k < |items| ==> items[k].ids == Range(counts, k)
  }

  lemma RangesAreApart(items: seq<Item>, counts: seq<nat>)
    requires InRanges(items, counts)
    ensures Apart(items)
  {
    forall i, j | 0 <= i < j < |items|
      ensures Disjoint(items[i].ids, items[j].ids)
    {
      SumGrows(counts, i, j);
    }
  }

  lemma RangeIsBelow(counts: seq<nat>, k: nat)
    requires k < |counts|
    ensures forall i :: 0 <= i < counts[k] ==> Range(counts, k)[i] < SumTo(counts, |counts|)
  {
    SumGrows(counts, k, |counts|);
  }

  /** One item without data for each range. */
  function Places(counts: seq<nat>): (items: seq<Item>)
    ensures InRanges(items, counts) && |items| == |counts|
  {
    seq(|counts|, k requires 0 <= k < |counts| => Item(Range(counts, k), []))
  }

  lemma PlacesFit(counts: seq<nat>, table: seq<nat>)
    requires SumTo(counts, |counts|) <= |table| && SumTo(counts, |counts|) <= MAX_SECTORS
    ensures InTable(table, Places(counts))
  {
    forall k, i | 0 <= k < |counts| && 0 <= i < |Places(counts)[k].ids|
      ensures Allocatable(table, Places(counts)[k].ids[i])
    {
      RangeIsBelow(counts, k);
    }
  }

  lemma {:induction false} LinkUnitsWords(table: seq<nat>, ids: seq<nat>)
    requires AllWords(table) && AllWords(ids) && forall i :: 0 <= i < |ids| ==> ids[i] < |table|
    ensures AllWords(LinkUnits(table, ids))
    decreases |ids|
  {
    if ids != [] {
      LinkUnitsWords(table[ids[0] := if |ids| == 1 then END_OF_CHAIN else ids[1]], ids[1..]);
    }
  }

  lemma {:induction false} LinkAllWords(table: seq<nat>, items: seq<Item>)
    requires AllWords(table) && InTable(table, items) && forall k :: 0 <= k < |items| ==> AllWords(items[k].ids)
    ensures AllWords(LinkAll(table, items))
    decreases |items|
  {
    if items != [] {
      LinkUnitsWords(table, items[0].ids);
      LinkAllWords(LinkUnits(table, items[0].ids), items[1..]);
    }
  }

  // ---- The plan ------------------------------------------------------------------------------

  datatype NamedStream = NamedStream(name: seq<nat>, data: seq<byte>)

  predicate IsName(name: seq<nat>) {
    0 < |name| <= 31 && AllUnits(name)
  }

  const ROOT_NAME: seq<nat> := [0x52, 0x6f, 0x6f, 0x74, 0x20, 0x45, 0x6e, 0x74, 0x72, 0x79]

  predicate IsShort(x: NamedStream) {
    |x.data| < MINI_STREAM_CUTOFF
  }

  /** How many words a sector holds. */
  function WordsIn(size: nat): nat {
    size / 4
  }

  /** A table of `n` sectors with `fat` FAT sectors and `difat` DIFAT sectors first, and free sectors after them. */
  function Marks(fat: nat, difat: nat, n: nat): (table: seq<nat>)
    ensures |table| == n && AllWords(table)
  {
    seq(n, i => if i < fat then FAT_SECTOR else if i < fat + difat then DIFAT_SECTOR else FREE_SECTOR)
  }

  datatype Pack = Pack(size: nat, streams: seq<NamedStream>)
  {
    /** The units of each stream in the mini stream, and in sectors: one of the two is none. */
    function ShortCounts(): (counts: seq<nat>)
      ensures |counts| == |streams|
    {
      seq(|streams|, i requires 0 <= i < |streams| =>
        if IsShort(streams[i]) then CeilDiv(|streams[i].data|, MINI_SECTOR_SIZE) else 0)
    }

    function LongCounts(): (counts: seq<nat>)
      requires size > 0
      ensures |counts| == |streams|
    {
      seq(|streams|, i requires 0 <= i < |streams| =>
        if IsShort(streams[i]) then 0 else CeilDiv(|streams[i].data|, size))
    }

    function MiniUnits(): nat {
      SumTo(ShortCounts(), |streams|)
    }

    predicate IsSized() {
      size == 512 || size == 4096
    }

    function DirectorySectors(): nat
      requires IsSized()
    {
      CeilDiv(|streams| + 1, size / 128)
    }

    function MiniFatSectors(): nat
      requires IsSized()
    {
      CeilDiv(MiniUnits(), WordsIn(size))
    }

    function RootSectors(): nat
      requires IsSized()
    {
      CeilDiv(MiniUnits() * MINI_SECTOR_SIZE, size)
    }

    /** Everything but the FAT and the DIFAT. */
    function ContentCounts(): (counts: seq<nat>)
      requires IsSized()
      ensures |counts| == 3 + |streams|
    {
      [DirectorySectors(), MiniFatSectors(), RootSectors()] + LongCounts()
    }

    function ContentSectors(): nat
      requires IsSized()
    {
      SumTo(ContentCounts(), 3 + |streams|)
    }

    /** Enough FAT sectors for the content, for themselves and for as many DIFAT sectors. */
    function FatSectors(): nat
      requires IsSized()
    {
      CeilDiv(ContentSectors(), WordsIn(size) - 2)
    }

    function DifatSectors(): nat
      requires IsSized()
    {
      if FatSectors() <= 109 then 0 else CeilDiv(FatSectors() - 109, PerSector(size))
    }

    function Counts(): (counts: seq<nat>)
      requires IsSized()
      ensures |counts| == 5 + |streams|
    {
      [FatSectors(), DifatSectors()] + ContentCounts()
    }

    function Sectors(): nat
      requires IsSized()
    {
      SumTo(Counts(), 5 + |streams|)
    }

    /** The names are valid and distinct, and the file stays within the format's limits. */
    ghost predicate Valid() {
      && IsSized() && |streams| < FREE_SECTOR
      && (forall i :: 0 <= i < |streams| ==> IsName(streams[i].name) && |streams[i].data| < 0x1_0000_0000)
      && (forall i, j :: 0 <= i < j < |streams| ==> streams[i].name != streams[j].name)
      && MiniUnits() * MINI_SECTOR_SIZE < 0x1_0000_0000 && Sectors() <= MAX_SECTORS
    }

    function ShortItems(): (items: seq<Item>)
      ensures |items| == |streams|
    {
      seq(|streams|, i requires 0 <= i < |streams| =>
        Item(Range(ShortCounts(), i), if IsShort(streams[i]) then streams[i].data else []))
    }

    function LongItems(): (items: seq<Item>)
      requires IsSized()
      ensures |items| == |streams|
    {
      seq(|streams|, i requires 0 <= i < |streams| =>
        Item(Range(Counts(), 5 + i), if IsShort(streams[i]) then [] else streams[i].data))
    }

    /** The entry in slot `k`; the root entry is in slot 0. */
    function EntryAt(k: nat): Entry
      requires IsSized() && k <= |streams|
    {
      if k == 0 then
        Entry(ROOT_NAME, ROOT, FREE_SECTOR, FREE_SECTOR, NextSlot(0, |streams|), First(Range(Counts(), 4)),
              MiniUnits() * MINI_SECTOR_SIZE)
      else
        var x := streams[k - 1];
        Entry(x.name, STREAM, FREE_SECTOR, NextSlot(k, |streams|), FREE_SECTOR,
              First(if IsShort(x) then Range(ShortCounts(), k - 1) else Range(Counts(), 4 + k)), |x.data|)
    }

    function Slots(): (slots: seq<Option<Entry>>)
      requires IsSized()
      ensures |slots| == DirectorySectors() * (size / 128)
    {
      seq(DirectorySectors() * (size / 128),
          k requires 0 <= k < DirectorySectors() * (size / 128) => if k <= |streams| then Some(EntryAt(k)) else None)
    }

    /** The FAT before the chains are linked: its own sectors and the DIFAT's are marked, the others are free. */
    function MarkedFat(): (table: seq<nat>)
      requires IsSized()
      ensures |table| == FatSectors() * WordsIn(size) && AllWords(table)
    {
      Marks(FatSectors(), DifatSectors(), FatSectors() * WordsIn(size))
    }

    function FreeMiniFat(): (table: seq<nat>)
      requires IsSized()
      ensures |table| == MiniFatSectors() * WordsIn(size) && AllWords(table)
    {
      seq(MiniFatSectors() * WordsIn(size), _ => FREE_SECTOR)
    }

    /** The plan: the chains of everything after the DIFAT are linked in the FAT. */
    function PlanOf(): Plan
      requires IsSized()
      requires InTable(MarkedFat(), Places(Counts())[2..]) && InTable(FreeMiniFat(), Places(ShortCounts()))
    {
      Plan(size, Sectors(), LinkAll(MarkedFat(), Places(Counts())[2..]), Range(Counts(), 0), Range(Counts(), 1),
           Slots(), 0, Range(Counts(), 2), LinkAll(FreeMiniFat(), Places(ShortCounts())), Range(Counts(), 3),
           Range(Counts(), 4), ShortItems(), LongItems())
    }
  }

  // ---- The numbers fit -----------------------------------------------------------------------

  lemma {:induction false} SumAfter(head: seq<nat>, tail: seq<nat>, k: nat)
    requires k <= |tail|
    ensures SumTo(head + tail, |head| + k) == SumTo(head, |head|) + SumTo(tail, k)
  {
    if k > 0 {
      SumAfter(head, tail, k - 1);
    } else {
      SumOfPrefix(head, tail, |head|);
    }
  }

  lemma {:induction false} SumOfPrefix(head: seq<nat>, tail: seq<nat>, k: nat)
    requires k <= |head|
    ensures SumTo(head + tail, k) == SumTo(head, k)
  {
    if k > 0 {
      SumOfPrefix(head, tail, k - 1);
    }
  }

  lemma SectorsAre(x: Pack)
    requires x.IsSized()
    ensures x.Sectors() == x.FatSectors() + x.DifatSectors() + x.ContentSectors()
  {
    var two := [x.FatSectors(), x.DifatSectors()];
    SumAfter(two, x.ContentCounts(), 3 + |x.streams|);
    SumOfTwo(x.FatSectors(), x.DifatSectors());
  }

  lemma SumOfTwo(a: nat, b: nat)
    ensures SumTo([a, b], 2) == a + b
  {
    assert SumTo([a, b], 0) == 0;
    assert SumTo([a, b], 1) == a;
  }

  /** `fat` sectors of `words` words have room for `content` sectors, for themselves and for the DIFAT. */
  lemma FatHasRoom(fat: nat, difat: nat, content: nat, words: nat)
    requires words == 128 || words == 1024
    requires fat == CeilDiv(content, words - 2) && difat == if fat <= 109 then 0 else CeilDiv(fat - 109, words - 1)
    ensures fat + difat + content <= fat * words && difat <= fat
    ensures fat <= 109 || fat - 109 <= difat * (words - 1)
  {
    if words == 128 {
      assert content <= fat * 126;
    } else {
      assert content <= fat * 1022;
    }
  }

  lemma TablesHaveRoom(x: Pack)
    requires x.Valid()
    ensures x.Sectors() <= |x.MarkedFat()| && x.MiniUnits() <= |x.FreeMiniFat()|
    ensures x.FatSectors() <= 109 || x.FatSectors() - 109 <= x.DifatSectors() * PerSector(x.size)
  {
    SectorsAre(x);
    FatHasRoom(x.FatSectors(), x.DifatSectors(), x.ContentSectors(), WordsIn(x.size));
  }

  lemma {:induction false} RangesAreWords(counts: seq<nat>)
    requires SumTo(counts, |counts|) <= MAX_SECTORS
    ensures forall k :: 0 <= k < |counts| ==> AllIds(Range(counts, k)) && AllWords(Range(counts, k))
  {
    forall k | 0 <= k < |counts|
      ensures AllIds(Range(counts, k)) && AllWords(Range(counts, k))
    {
      RangeIsBelow(counts, k);
    }
  }

  /** The mini units are numbered below the mini FAT's words, so they are no special values. */
  lemma MiniUnitsAreFew(x: Pack)
    requires x.Valid()
    ensures x.MiniUnits() <= MAX_SECTORS
  {
  }

  lemma TablesAreReady(x: Pack)
    requires x.Valid()
    ensures InTable(x.MarkedFat(), Places(x.Counts())[2..]) && InTable(x.FreeMiniFat(), Places(x.ShortCounts()))
  {
    TablesHaveRoom(x);
    MiniUnitsAreFew(x);
    PlacesFit(x.Counts(), x.MarkedFat());
    PlacesFit(x.ShortCounts(), x.FreeMiniFat());
  }

  lemma ApartTail(items: seq<Item>, n: nat)
    requires Apart(items) && n <= |items|
    ensures Apart(items[n..])
  {
    forall i, j | 0 <= i < j < |items| - n
      ensures Disjoint(items[n..][i].ids, items[n..][j].ids)
    {
      assert Disjoint(items[n + i].ids, items[n + j].ids);
    }
    forall i | 0 <= i < |items| - n
      ensures Distinct(items[n..][i].ids)
    {
      assert Distinct(items[n + i].ids);
    }
  }

  /** Every range from the directory on is a chain of the FAT, and every mini range one of the mini FAT. */
  lemma RangesAreChains(x: Pack)
    requires x.Valid() && InTable(x.MarkedFat(), Places(x.Counts())[2..])
    requires InTable(x.FreeMiniFat(), Places(x.ShortCounts()))
    ensures forall k :: 2 <= k < 5 + |x.streams| ==>
              IsChain(x.PlanOf().fat, First(Range(x.Counts(), k)), Range(x.Counts(), k))
    ensures forall i :: 0 <= i < |x.streams| ==>
              IsChain(x.PlanOf().miniFat, First(Range(x.ShortCounts(), i)), Range(x.ShortCounts(), i))
  {
    var places, mini := Places(x.Counts()), Places(x.ShortCounts());
    RangesAreApart(places, x.Counts());
    ApartTail(places, 2);
    RangesAreApart(mini, x.ShortCounts());
    forall k | 2 <= k < 5 + |x.streams|
      ensures IsChain(x.PlanOf().fat, First(Range(x.Counts(), k)), Range(x.Counts(), k))
    {
      AllLinked(x.MarkedFat(), places[2..], k - 2);
      assert places[2..][k - 2] == places[k];
    }
    forall i | 0 <= i < |x.streams|
      ensures IsChain(x.PlanOf().miniFat, First(Range(x.ShortCounts(), i)), Range(x.ShortCounts(), i))
    {
      AllLinked(x.FreeMiniFat(), mini, i);
    }
  }

  // ---- The plan is valid ---------------------------------------------------------------------

  /** The tables can be linked. */
  ghost predicate Ready(x: Pack) {
    x.Valid() && InTable(x.MarkedFat(), Places(x.Counts())[2..]) && InTable(x.FreeMiniFat(), Places(x.ShortCounts()))
  }

  lemma TableWords(x: Pack)
    requires Ready(x)
    ensures AllWords(x.PlanOf().fat) && |x.PlanOf().fat| == x.FatSectors() * WordsIn(x.size)
    ensures AllWords(x.PlanOf().miniFat) && |x.PlanOf().miniFat| == x.MiniFatSectors() * WordsIn(x.size)
  {
    MiniUnitsAreFew(x);
    RangesAreWords(x.Counts());
    RangesAreWords(x.ShortCounts());
    LinkAllWords(x.MarkedFat(), Places(x.Counts())[2..]);
    LinkAllWords(x.FreeMiniFat(), Places(x.ShortCounts()));
  }

  lemma FirstIsWord(counts: seq<nat>, k: nat)
    requires k < |counts| && SumTo(counts, |counts|) <= MAX_SECTORS
    ensures First(Range(counts, k)) < 0x1_0000_0000
  {
    RangeIsBelow(counts, k);
  }

  lemma RootIsWritable(x: Pack)
    requires x.Valid()
    ensures Writable(x.EntryAt(0))
  {
    FirstIsWord(x.Counts(), 4);
    assert AllUnits(ROOT_NAME);
  }

  lemma StreamStart(x: Pack, i: nat)
    requires x.Valid() && i < |x.streams|
    ensures x.EntryAt(1 + i).startSector < 0x1_0000_0000
  {
    FirstIsWord(x.Counts(), 5 + i);
    MiniUnitsAreFew(x);
    FirstIsWord(x.ShortCounts(), i);
  }

  lemma EntryIsWritable(x: Pack, k: nat)
    requires x.Valid() && k <= |x.streams|
    ensures Writable(x.EntryAt(k))
  {
    if k == 0 {
      RootIsWritable(x);
    } else {
      StreamStart(x, k - 1);
      assert IsName(x.streams[k - 1].name);
    }
  }

  lemma SlotsAreWritable(x: Pack)
    requires x.Valid()
    ensures |x.streams| < |x.Slots()| && WritableSlots(x.Slots()) && OneRoot(x.Slots(), 0)
    ensures 128 * |x.Slots()| == x.DirectorySectors() * x.size
  {
    SlotCount(x.DirectorySectors(), |x.streams|, x.size);
    forall k | 0 <= k < |x.Slots()| && x.Slots()[k].Some?
      ensures Writable(x.Slots()[k].value)
    {
      EntryIsWritable(x, k);
    }
  }

  lemma SlotCount(sectors: nat, streams: nat, size: nat)
    requires (size == 512 || size == 4096) && sectors == CeilDiv(streams + 1, size / 128)
    ensures streams < sectors * (size / 128) && 128 * (sectors * (size / 128)) == sectors * size
  {
    if size == 512 {
      assert streams < 4 * sectors && 128 * (sectors * 4) == sectors * 512;
    } else {
      assert streams < 32 * sectors && 128 * (sectors * 32) == sectors * 4096;
    }
  }

  lemma MiniItemsAreHoused(x: Pack)
    requires x.Valid()
    ensures Housed(Zeros(x.MiniUnits() * MINI_SECTOR_SIZE), 0, MINI_SECTOR_SIZE, x.ShortItems())
  {
    forall i | 0 <= i < |x.streams|
      ensures AllFit(Zeros(x.MiniUnits() * MINI_SECTOR_SIZE), 0, MINI_SECTOR_SIZE, x.ShortItems()[i].ids)
      ensures |x.ShortItems()[i].data| <= |x.ShortItems()[i].ids| * MINI_SECTOR_SIZE
    {
      RangeIsBelow(x.ShortCounts(), i);
    }
  }

  lemma DifatHasRoom(x: Pack)
    requires Ready(x)
    ensures Room(x.PlanOf().InDifat(), x.PlanOf().difatSectors, x.size)
  {
    TablesHaveRoom(x);
  }

  lemma PackIsSized(x: Pack)
    requires Ready(x)
    ensures x.PlanOf().Sized()
  {
    TableWords(x);
    SlotsAreWritable(x);
    RangesAreWords(x.Counts());
    DifatHasRoom(x);
    MiniItemsAreHoused(x);
    WordsFill(x.FatSectors(), x.size);
    WordsFill(x.MiniFatSectors(), x.size);
  }

  lemma WordsFill(sectors: nat, size: nat)
    requires size == 512 || size == 4096
    ensures 4 * (sectors * WordsIn(size)) == sectors * size
  {
  }

  /** The plan's sectors are ranges, in the order of its regions. */
  ghost predicate Ranged(p: Plan, counts: seq<nat>) {
    && |counts| == 5 + |p.long|
    && p.fatSectors == Range(counts, 0) && p.difatSectors == Range(counts, 1) && p.directory == Range(counts, 2)
    && p.miniFatSectors == Range(counts, 3) && p.rootStream == Range(counts, 4)
    && forall i :: 0 <= i < |p.long| ==> p.long[i].ids == Range(counts, 5 + i)
  }

  /** The mini stream and the long streams have the sectors they need. */
  ghost predicate Roomy(p: Plan)
    requires p.Sized()
  {
    && p.slots[p.root].value.size <= |p.rootStream| * p.sectorSize
    && forall i :: 0 <= i < |p.long| ==> |p.long[i].data| <= |p.long[i].ids| * p.sectorSize
  }

  lemma RegionIsRange(p: Plan, counts: seq<nat>, k: nat)
    requires p.Sized() && Ranged(p, counts) && k < |p.Regions()|
    ensures p.Regions()[k].ids == Range(counts, k)
  {
    if k >= 5 {
      assert p.Regions()[k] == p.Regions()[5..][k - 5] == p.long[k - 5];
    }
  }

  lemma RegionHasRoom(p: Plan, k: nat)
    requires p.Sized() && Roomy(p) && k < |p.Regions()|
    ensures |p.Regions()[k].data| <= |p.Regions()[k].ids| * p.sectorSize
  {
    if k >= 5 {
      assert p.Regions()[k] == p.Regions()[5..][k - 5] == p.long[k - 5];
    }
  }

  lemma RangedIsPlaced(p: Plan, counts: seq<nat>)
    requires p.Sized() && Ranged(p, counts) && Roomy(p) && Apart(p.short) && p.sectors == SumTo(counts, |counts|)
    ensures p.Placed()
  {
    var regions := p.Regions();
    forall k | 0 <= k < |regions|
      ensures regions[k].ids == Range(counts, k)
    {
      RegionIsRange(p, counts, k);
    }
    RangesAreApart(regions, counts);
    forall k | 0 <= k < |regions|
      ensures forall i :: 0 <= i < |regions[k].ids| ==> regions[k].ids[i] < p.sectors
      ensures |regions[k].data| <= |regions[k].ids| * p.sectorSize
    {
      RangeIsBelow(counts, k);
      RegionHasRoom(p, k);
    }
  }

  lemma PackIsRanged(x: Pack)
    requires Ready(x)
    ensures Ranged(x.PlanOf(), x.Counts())
  {
  }

  lemma PackIsRoomy(x: Pack)
    requires Ready(x) && x.PlanOf().Sized()
    ensures Roomy(x.PlanOf())
  {
  }

  lemma PackIsPlaced(x: Pack)
    requires Ready(x) && x.PlanOf().Sized()
    ensures x.PlanOf().Placed()
  {
    PackIsRanged(x);
    PackIsRoomy(x);
    RangesAreApart(x.ShortItems(), x.ShortCounts());
    RangedIsPlaced(x.PlanOf(), x.Counts());
  }

  lemma LongIsLinked(x: Pack, i: nat)
    requires Ready(x) && i < |x.streams|
    requires IsChain(x.PlanOf().fat, First(Range(x.Counts(), 5 + i)), Range(x.Counts(), 5 + i))
    ensures var item := x.PlanOf().long[i];
            && IsChain(x.PlanOf().fat, First(item.ids), item.ids)
            && (MINI_STREAM_CUTOFF <= |item.data| || item.data == []) && |item.ids| == CeilDiv(|item.data|, x.size)
  {
  }

  lemma ShortIsLinked(x: Pack, i: nat)
    requires Ready(x) && i < |x.streams|
    requires IsChain(x.PlanOf().miniFat, First(Range(x.ShortCounts(), i)), Range(x.ShortCounts(), i))
    ensures var item := x.PlanOf().short[i];
            && IsChain(x.PlanOf().miniFat, First(item.ids), item.ids)
            && |item.data| < MINI_STREAM_CUTOFF && |item.ids| == CeilDiv(|item.data|, MINI_SECTOR_SIZE)
  {
  }

  lemma RootIsLinked(x: Pack)
    requires Ready(x) && x.PlanOf().Sized()
    requires IsChain(x.PlanOf().fat, First(Range(x.Counts(), 4)), Range(x.Counts(), 4))
    ensures var p, root := x.PlanOf(), x.PlanOf().slots[0].value;
            if root.size == 0 then p.rootStream == [] else IsChain(p.fat, root.startSector, p.rootStream)
  {
  }

  lemma PackIsLinked(x: Pack)
    requires Ready(x) && x.PlanOf().Sized()
    ensures x.PlanOf().Linked()
  {
    var p := x.PlanOf();
    RangesAreChains(x);
    PackIsRanged(x);
    RootIsLinked(x);
    assert IsChain(p.fat, First(p.directory), p.directory);
    assert IsChain(p.fat, First(p.miniFatSectors), p.miniFatSectors);
    forall i | 0 <= i < |p.long|
      ensures IsChain(p.fat, First(p.long[i].ids), p.long[i].ids)
      ensures MINI_STREAM_CUTOFF <= |p.long[i].data| || p.long[i].data == []
      ensures |p.long[i].ids| == CeilDiv(|p.long[i].data|, p.sectorSize)
    {
      LongIsLinked(x, i);
    }
    forall i | 0 <= i < |p.short|
      ensures IsChain(p.miniFat, First(p.short[i].ids), p.short[i].ids)
      ensures |p.short[i].data| < MINI_STREAM_CUTOFF
      ensures |p.short[i].ids| == CeilDiv(|p.short[i].data|, MINI_SECTOR_SIZE)
    {
      ShortIsLinked(x, i);
    }
  }

  lemma PackIsMapped(x: Pack)
    requires x.Valid()
    ensures RightLinked(x.Slots(), |x.streams|)
    ensures var t := RightTree(x.Slots(), |x.streams|, 1);
            && IsEntryMap(x.Slots(), 0, t, EntriesOf(t)) && |EntriesOf(t)| == |x.streams|
            && forall i :: 0 <= i < |x.streams| ==> EntriesOf(t)[i] == x.EntryAt(1 + i)
  {
    SlotsAreWritable(x);
    forall j, k | 1 <= j < k <= |x.streams|
      ensures x.Slots()[j].value.name != x.Slots()[k].value.name
    {
      assert x.streams[j - 1].name != x.streams[k - 1].name;
    }
    RightTreeIsWhole(x.Slots(), |x.streams|);
  }

  /** For any streams within the format's limits, in either sector size, there is a valid plan. */
  lemma PackIsValid(x: Pack)
    requires x.Valid()
    ensures Ready(x) && RightLinked(x.Slots(), |x.streams|)
    ensures var t := RightTree(x.Slots(), |x.streams|, 1);
            && x.PlanOf().Valid(t) && |EntriesOf(t)| == |x.streams|
            && forall i :: 0 <= i < |x.streams| ==> EntriesOf(t)[i] == x.EntryAt(1 + i)
  {
    TablesAreReady(x);
    PackIsSized(x);
    PackIsPlaced(x);
    PackIsLinked(x);
    PackIsMapped(x);
  }

  /** Where the `i`-th stream is planned. */
  ghost function ItemOf(x: Pack, i: nat): Item
    requires x.IsSized() && i < |x.streams|
  {
    if IsShort(x.streams[i]) then x.ShortItems()[i] else x.LongItems()[i]
  }

  /** What a plan says about one stream, as the writer and the reader need it. */
  ghost predicate Plans(p: Plan, tree: Tree, e: Entry, item: Item) {
    && p.Valid(tree) && item in p.short + p.long && e in EntriesOf(tree)
    && e.kind == STREAM && e.size == |item.data| && e.startSector == First(item.ids)
  }

  lemma ItemIsPlanned(x: Pack, i: nat)
    requires Ready(x) && i < |x.streams|
    ensures ItemOf(x, i) in x.PlanOf().short + x.PlanOf().long && ItemOf(x, i).data == x.streams[i].data
    ensures var e := x.EntryAt(1 + i);
            e.kind == STREAM && e.size == |x.streams[i].data| && e.startSector == First(ItemOf(x, i).ids)
  {
    if IsShort(x.streams[i]) {
      assert ItemOf(x, i) == x.PlanOf().short[i];
    } else {
      assert ItemOf(x, i) == x.PlanOf().long[i];
    }
  }

  lemma StreamIsPlanned(x: Pack, i: nat)
    requires x.Valid() && i < |x.streams|
    ensures Ready(x) && RightLinked(x.Slots(), |x.streams|)
    ensures Plans(x.PlanOf(), RightTree(x.Slots(), |x.streams|, 1), x.EntryAt(1 + i), ItemOf(x, i))
    ensures ItemOf(x, i).data == x.streams[i].data
  {
    PackIsValid(x);
    ItemIsPlanned(x, i);
    assert EntriesOf(RightTree(x.Slots(), |x.streams|, 1))[i] == x.EntryAt(1 + i);
  }

  /** Writes a planned file and reads one of its streams. */
  method WriteAndReadPlanned(p: Plan, ghost tree: Tree, ghost e: Entry, name: seq<nat>, ghost item: Item)
    returns (r: Option<seq<byte>>)
    requires Plans(p, tree, e, item) && e.name == name
    ensures r == Some(item.data)
  {
    r := WriteAndRead(p, tree, e, name, item);
  }

  /** Writes a file with the given streams and reads one of them: short or long, it comes back. */
  method PackAndRead(x: Pack, i: nat) returns (r: Option<seq<byte>>)
    requires x.Valid() && i < |x.streams|
    ensures r == Some(x.streams[i].data)
  {
    StreamIsPlanned(x, i);
    ghost var tree := RightTree(x.Slots(), |x.streams|, 1);
    r := WriteAndReadPlanned(x.PlanOf(), tree, x.EntryAt(1 + i), x.streams[i].name, ItemOf(x, i));
  }
}
