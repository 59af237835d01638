/** The smallest useful compound files: one sector each for the directory, the mini FAT, the mini stream and
    the FAT, and up to three streams and storages linked to the right of one another. */
module CompoundSamples {
  import opened Bytes
  import opened Wrappers
  import opened SectorChains
  import opened DirectoryTrees
  import opened CompoundFiles
  import opened CompoundStreams
  import opened CompoundRecords
  import opened CompoundLayout
  import opened CompoundPacking

  /** What goes into a sample: streams of one mini sector each, then storages, three in all. */
  datatype Sample = Sample(streams: seq<NamedStream>, storages: seq<seq<nat>>)
  {
    function Count(): nat {
      |streams| + |storages|
    }

    function Name(k: nat): seq<nat>
      requires 1 <= k <= Count()
    {
      if k <= |streams| then streams[k - 1].name else storages[k - 1 - |streams|]
    }

    ghost predicate Valid() {
      && Count() <= 3
      && (forall k :: 1 <= k <= Count() ==> IsName(Name(k)))
      && (forall j, k :: 1 <= j < k <= Count() ==> Name(j) != Name(k))
      && (forall i :: 0 <= i < |streams| ==> 0 < |streams[i].data| <= MINI_SECTOR_SIZE)
    }

    /** The entry in slot `k`. */
    function EntryAt(k: nat): Entry
      requires k <= Count()
    {
      if k == 0 then Entry(ROOT_NAME, ROOT, FREE_SECTOR, FREE_SECTOR, NextSlot(0, Count()), 2, 512)
      else if k <= |streams| then
        Entry(Name(k), STREAM, FREE_SECTOR, NextSlot(k, Count()), FREE_SECTOR, k - 1, |streams[k - 1].data|)
      else Entry(Name(k), STORAGE, FREE_SECTOR, NextSlot(k, Count()), FREE_SECTOR, END_OF_CHAIN, 0)
    }

    function Slots(): (slots: seq<Option<Entry>>)
      ensures |slots| == 4
      ensures forall k :: 0 <= k < 4 ==> slots[k] == if k <= Count() then Some(EntryAt(k)) else None
    {
      seq(4, k requires 0 <= k < 4 => if k <= Count() then Some(EntryAt(k)) else None)
    }

    function Fat(): (table: seq<nat>)
      ensures |table| == 128
    {
      seq(128, i => if i < 3 then END_OF_CHAIN else if i == 3 then FAT_SECTOR else FREE_SECTOR)
    }

    function MiniFat(): (table: seq<nat>)
      ensures |table| == 128
    {
      seq(128, i => if i < |streams| then END_OF_CHAIN else FREE_SECTOR)
    }

    function Items(): (items: seq<Item>)
      ensures |items| == |streams|
      ensures forall i :: 0 <= i < |streams| ==> items[i] == Item([i], streams[i].data)
    {
      seq(|streams|, i requires 0 <= i < |streams| => Item([i], streams[i].data))
    }

    function PlanOf(): Plan {
      Plan(512, 4, Fat(), [3], [], Slots(), 0, [0], MiniFat(), [1], [2], Items(), [])
    }

    ghost function TreeOf(): Tree
      requires Valid()
    {
      SlotsAreLinked(this);
      RightTree(Slots(), Count(), 1)
    }
  }

  lemma SlotsAreLinked(x: Sample)
    requires x.Valid()
    ensures RightLinked(x.Slots(), x.Count())
  {
  }

  lemma EntryMapIsRight(x: Sample)
    requires x.Valid()
    ensures IsEntryMap(x.Slots(), 0, x.TreeOf(), EntriesOf(x.TreeOf()))
    ensures |EntriesOf(x.TreeOf())| == x.Count()
    ensures forall i :: 0 <= i < x.Count() ==> EntriesOf(x.TreeOf())[i] == x.EntryAt(1 + i)
  {
    var slots := x.Slots();
    forall j, k | 1 <= j < k <= x.Count()
      ensures slots[j].value.name != slots[k].value.name
    {
      assert slots[j].value.name == x.Name(j) && slots[k].value.name == x.Name(k);
    }
    RightTreeIsWhole(slots, x.Count());
  }

  lemma SampleIsSized(x: Sample)
    requires x.Valid()
    ensures x.PlanOf().Sized()
  {
    var p := x.PlanOf();
    forall k | 0 <= k < 4 && p.slots[k].Some?
      ensures Writable(p.slots[k].value)
    {
      assert k > 0 ==> IsName(x.Name(k));
    }
    assert p.InDifat() == [];
    forall i | 0 <= i < |p.short|
      ensures AllFit(Zeros(512), 0, MINI_SECTOR_SIZE, p.short[i].ids)
      ensures |p.short[i].data| <= |p.short[i].ids| * MINI_SECTOR_SIZE
    {
    }
  }

  lemma FourSectors(items: seq<Item>)
    requires |items| == 5
    requires items[0].ids == [3] && items[1].ids == [] && items[2].ids == [0]
    requires items[3].ids == [1] && items[4].ids == [2]
    ensures Apart(items)
  {
    forall i, j | 0 <= i < j < 5
      ensures Disjoint(items[i].ids, items[j].ids)
    {
    }
  }

  lemma ShortApart(x: Sample)
    ensures Apart(x.Items())
  {
  }

  /** A plan of one sector for each region, in the order of a sample. */
  predicate OneSectorEach(p: Plan) {
    && p.sectorSize == 512 && p.sectors == 4 && p.fatSectors == [3] && p.difatSectors == [] && p.directory == [0]
    && p.miniFatSectors == [1] && p.rootStream == [2] && p.long == []
  }

  lemma RegionsOfOneSector(p: Plan, k: nat)
    requires p.Sized() && OneSectorEach(p) && p.slots[p.root].value.size <= 512 && k < |p.Regions()|
    ensures |p.Regions()[k].data| <= 512 * |p.Regions()[k].ids|
    ensures forall j :: 0 <= j < |p.Regions()[k].ids| ==> p.Regions()[k].ids[j] < 4
  {
  }

  lemma OneSectorIsPlaced(p: Plan)
    requires p.Sized() && OneSectorEach(p) && p.slots[p.root].value.size <= 512 && Apart(p.short)
    ensures p.Placed()
  {
    FourSectors(p.Regions());
    forall k | 0 <= k < |p.Regions()|
      ensures |p.Regions()[k].data| <= 512 * |p.Regions()[k].ids|
      ensures forall j :: 0 <= j < |p.Regions()[k].ids| ==> p.Regions()[k].ids[j] < 4
    {
      RegionsOfOneSector(p, k);
    }
  }

  lemma SampleIsPlaced(x: Sample)
    requires x.Valid() && x.PlanOf().Sized()
    ensures x.PlanOf().Placed()
  {
    ShortApart(x);
    OneSectorIsPlaced(x.PlanOf());
  }

  lemma SampleIsLinked(x: Sample)
    requires x.Valid() && x.PlanOf().Sized()
    ensures x.PlanOf().Linked()
  {
    var p := x.PlanOf();
    forall start: nat, table: seq<nat> | start < |table| && table[start] == END_OF_CHAIN && |table| == 128
      ensures IsChain(table, start, [start])
    {
      assert IsChain(table, END_OF_CHAIN, [start][1..]);
    }
  }

  /** Every sample is a valid plan, so compound files exist and the reader accepts them. */
  lemma SampleIsValid(x: Sample)
    requires x.Valid()
    ensures x.PlanOf().Valid(x.TreeOf()) && |EntriesOf(x.TreeOf())| == x.Count()
    ensures forall i :: 0 <= i < x.Count() ==> EntriesOf(x.TreeOf())[i] == x.EntryAt(1 + i)
  {
    SampleIsSized(x);
    SampleIsPlaced(x);
    SampleIsLinked(x);
    EntryMapIsRight(x);
  }

  lemma SampleStream(x: Sample, i: nat)
    requires x.Valid() && i < |x.streams|
    ensures x.PlanOf().Valid(x.TreeOf()) && x.EntryAt(i + 1) in EntriesOf(x.TreeOf())
    ensures Item([i], x.streams[i].data) in x.PlanOf().short + x.PlanOf().long
  {
    SampleIsValid(x);
    assert EntriesOf(x.TreeOf())[i] == x.EntryAt(i + 1);
    assert x.PlanOf().short[i] == Item([i], x.streams[i].data);
  }

  /** Each stream of each sample comes back from the written file. */
  method WriteSample(x: Sample, i: nat) returns (r: Option<seq<byte>>)
    requires x.Valid() && i < |x.streams|
    ensures r == Some(x.streams[i].data)
  {
    SampleStream(x, i);
    r := WriteAndRead(x.PlanOf(), x.TreeOf(), x.EntryAt(i + 1), x.streams[i].name, Item([i], x.streams[i].data));
  }
}
