/** Stream reads from a parsed compound file, and the layout that [MS-CFB] sections 2.3 and 2.4
    prescribe for a stream. */
module CompoundStreams {
  import opened Bytes
  import opened Wrappers
  import opened SectorChains
  import opened DirectoryTrees
  import opened CompoundFiles

  /** The directory map's lookup. */
  function Find(entries: seq<Entry>, name: seq<nat>): (r: Option<Entry>)
    ensures r.Some? ==> r.value in entries && r.value.name == name
    ensures r.None? ==> !HasName(entries, name)
  {
    if entries == [] then None
    else if entries[0].name == name then Some(entries[0])
    else Find(entries[1..], name)
  }

  lemma {:induction false} FindListed(entries: seq<Entry>, i: nat)
    requires DistinctNames(entries) && i < |entries|
    ensures Find(entries, entries[i].name) == Some(entries[i])
  {
    if i > 0 {
      FindListed(entries[1..], i - 1);
      assert entries[0].name != entries[i].name;
    }
  }

  function CeilDiv(n: nat, unit: nat): (k: nat)
    requires unit > 0
    ensures (k as int - 1) * unit < n <= k * unit
  {
    (n + unit - 1) / unit
  }

  /** Where a stream's units live: short streams in the mini stream, long ones in the file's sectors. */
  datatype Store = Store(table: seq<nat>, bytes: seq<byte>, base: nat, unit: nat)

  function StoreOf(c: CompoundFile, size: nat): Store {
    if size < MINI_STREAM_CUTOFF then Store(c.miniFat, c.miniStream, 0, MINI_SECTOR_SIZE)
    else Store(c.fat, c.buffer, c.sectorSize, c.sectorSize)
  }

  /** `chain` holds the stream: exactly ceil(size / unit) units, all inside the store. */
  ghost predicate Holding(s: Store, start: nat, size: nat, chain: seq<nat>)
    requires s.unit > 0
  {
    && IsChain(s.table, start, chain)
    && |chain| == CeilDiv(size, s.unit)
    && AllFit(s.bytes, s.base, s.unit, chain)
  }

  ghost function StreamBytes(s: Store, size: nat, chain: seq<nat>): (out: seq<byte>)
    requires s.unit > 0 && |chain| == CeilDiv(size, s.unit) && AllFit(s.bytes, s.base, s.unit, chain)
    ensures |out| == size
  {
    Gather(s.bytes, s.base, s.unit, chain)[..size]
  }

  /** Appends the units of a chain, stopping at one outside the store. */
  method GatherChain(s: Store, chain: seq<nat>) returns (r: Option<seq<byte>>)
    ensures r.Some? <==> AllFit(s.bytes, s.base, s.unit, chain)
    ensures r.Some? ==> r.value == Gather(s.bytes, s.base, s.unit, chain)
  {
    var chunks: seq<byte> := [];
    for i := 0 to |chain|
      invariant AllFit(s.bytes, s.base, s.unit, chain[..i]) && chunks == Gather(s.bytes, s.base, s.unit, chain[..i])
    {
      if !Fits(s.bytes, s.base, s.unit, chain[i]) {
        return None;
      }
      GatherAppend(s.bytes, s.base, s.unit, chain[..i], chain[i]);
      assert chain[..i + 1] == chain[..i] + [chain[i]];
      chunks := chunks + UnitAt(s.bytes, s.base, s.unit, chain[i]);
    }
    assert chain[..|chain|] == chain;
    return Some(chunks);
  }

  lemma ExactLength(n: nat, unit: nat, k: nat)
    requires unit > 0 && k <= CeilDiv(n, unit)
    ensures k * unit >= n <==> k == CeilDiv(n, unit)
  {
    if k < CeilDiv(n, unit) {
      assert k * unit <= (CeilDiv(n, unit) - 1) * unit;
    }
  }

  /** Reads a stream by name. For a non-empty stream the result is present exactly when some chain from its
      first sector has ceil(size / unit) in-range units, and then it is the first `size` bytes of those units. */
  method ReadStream(c: CompoundFile, name: seq<nat>) returns (r: Option<seq<byte>>)
    requires c.Valid()
    ensures var e := Find(c.entries, name);
            if e == None || e.value.kind != 2 then r == None
            else if e.value.size == 0 then r == Some([])
            else
              var s := StoreOf(c, e.value.size);
              && (r.Some? <==> exists chain :: Holding(s, e.value.startSector, e.value.size, chain))
              && (forall chain :: Holding(s, e.value.startSector, e.value.size, chain) ==>
                                    r == Some(StreamBytes(s, e.value.size, chain)))
  {
    var found := Find(c.entries, name);
    if found == None || found.value.kind != STREAM {
      return None;
    }
    var e := found.value;
    if e.size == 0 {
      return Some([]);
    }
    var s := StoreOf(c, e.size);
    var followed := FollowChain(e.startSector, s.table, CeilDiv(e.size, s.unit));
    if followed == None {
      return None;
    }
    var chain := followed.value;
    var output := GatherChain(s, chain);
    ExactLength(e.size, s.unit, |chain|);
    forall other | Holding(s, e.startSector, e.size, other)
      ensures other == chain
    {
      ChainUnique(s.table, e.startSector, other, chain);
    }
    if output == None || |output.value| < e.size {
      return None;
    }
    assert Holding(s, e.startSector, e.size, chain);
    return Some(output.value[..e.size]);
  }

  // ---- Laying a stream out -------------------------------------------------------------------

  /** `bytes` with `piece` written over position `at`. */
  function Overwrite(bytes: seq<byte>, at: nat, piece: seq<byte>): (out: seq<byte>)
    requires at + |piece| <= |bytes|
    ensures |out| == |bytes| && Holds(out, at, piece)
    ensures forall i :: 0 <= i < |bytes| && (i < at || at + |piece| <= i) ==> out[i] == bytes[i]
  {
    bytes[..at] + piece + bytes[at + |piece|..]
  }

  /** Writes `data` into the listed units, one unit-sized piece each. */
  function WriteUnits(bytes: seq<byte>, base: nat, unit: nat, ids: seq<nat>, data: seq<byte>): (out: seq<byte>)
    requires AllFit(bytes, base, unit, ids)
    ensures |out| == |bytes|
    decreases |ids|
  {
    if ids == [] then bytes
    else
      var n := Min(unit, |data|);
      WriteUnits(Overwrite(bytes, UnitStart(base, unit, ids[0]), data[..n]), base, unit, ids[1..], data[n..])
  }

  /** Links the listed units into a chain that ends with END_OF_CHAIN. */
  function LinkUnits(table: seq<nat>, ids: seq<nat>): (out: seq<nat>)
    requires forall i :: 0 <= i < |ids| ==> ids[i] < |table|
    ensures |out| == |table|
    decreases |ids|
  {
    if ids == [] then table
    else LinkUnits(table[ids[0] := if |ids| == 1 then END_OF_CHAIN else ids[1]], ids[1..])
  }

  lemma {:induction false} LinkUnitsElsewhere(table: seq<nat>, ids: seq<nat>, id: nat)
    requires forall i :: 0 <= i < |ids| ==> ids[i] < |table|
    requires id < |table| && id !in ids
    ensures LinkUnits(table, ids)[id] == table[id]
    decreases |ids|
  {
    if ids != [] {
      LinkUnitsElsewhere(table[ids[0] := if |ids| == 1 then END_OF_CHAIN else ids[1]], ids[1..], id);
    }
  }

  /** Linking distinct units makes exactly the chain that lists them. */
  lemma {:induction false} LinkedIsChain(table: seq<nat>, ids: seq<nat>)
    requires Distinct(ids) && forall i :: 0 <= i < |ids| ==> ids[i] < |table| && Allocatable(table, ids[i])
    ensures IsChain(LinkUnits(table, ids), if ids == [] then END_OF_CHAIN else ids[0], ids)
    decreases |ids|
  {
    if ids != [] {
      var next := if |ids| == 1 then END_OF_CHAIN else ids[1];
      var rest := table[ids[0] := next];
      assert Distinct(ids[1..]);
      LinkedIsChain(rest, ids[1..]);
      LinkUnitsElsewhere(rest, ids[1..], ids[0]);
    }
  }

  /** Distinct units do not overlap. */
  lemma UnitsApart(base: nat, unit: nat, a: nat, b: nat)
    requires a != b
    ensures UnitStart(base, unit, a) + unit <= UnitStart(base, unit, b)
            || UnitStart(base, unit, b) + unit <= UnitStart(base, unit, a)
  {
    if a < b {
      assert (a + 1) * unit <= b * unit;
    } else {
      assert (b + 1) * unit <= a * unit;
    }
  }

  lemma {:induction false} WriteUnitsElsewhere(bytes: seq<byte>, base: nat, unit: nat, ids: seq<nat>, data: seq<byte>,
                                               id: nat)
    requires AllFit(bytes, base, unit, ids) && Fits(bytes, base, unit, id) && id !in ids
    ensures UnitAt(WriteUnits(bytes, base, unit, ids, data), base, unit, id) == UnitAt(bytes, base, unit, id)
    decreases |ids|
  {
    if ids != [] {
      var n := Min(unit, |data|);
      var next := Overwrite(bytes, UnitStart(base, unit, ids[0]), data[..n]);
      UnitsApart(base, unit, ids[0], id);
      assert UnitAt(next, base, unit, id) == UnitAt(bytes, base, unit, id);
      WriteUnitsElsewhere(next, base, unit, ids[1..], data[n..], id);
    }
  }

  lemma HoldsPrefix(whole: seq<byte>, at: nat, piece: seq<byte>, unit: nat)
    requires Holds(whole, at, piece) && |piece| <= unit && at + unit <= |whole|
    ensures whole[at..at + unit][..|piece|] == piece
  {
    assert whole[at..at + unit][..|piece|] == whole[at..at + |piece|];
  }

  /** The first unit keeps the first piece while the other units are written. */
  lemma FirstUnitWritten(bytes: seq<byte>, base: nat, unit: nat, ids: seq<nat>, data: seq<byte>)
    requires AllFit(bytes, base, unit, ids) && ids != [] && ids[0] !in ids[1..]
    ensures var n := Min(unit, |data|);
            UnitAt(WriteUnits(bytes, base, unit, ids, data), base, unit, ids[0])[..n] == data[..n]
  {
    var n := Min(unit, |data|);
    var next := Overwrite(bytes, UnitStart(base, unit, ids[0]), data[..n]);
    HoldsPrefix(next, UnitStart(base, unit, ids[0]), data[..n], unit);
    assert UnitAt(next, base, unit, ids[0])[..n] == data[..n];
    WriteUnitsElsewhere(next, base, unit, ids[1..], data[n..], ids[0]);
  }

  lemma JoinPieces(head: seq<byte>, tail: seq<byte>, data: seq<byte>, n: nat)
    requires n == Min(|head|, |data|) && head[..n] == data[..n]
    requires |data| - n <= |tail| && tail[..|data| - n] == data[n..]
    ensures (head + tail)[..|data|] == data
  {
    assert data == data[..n] + data[n..];
  }

  /** What was written into distinct units is what gathering them gives back. */
  lemma {:induction false} WrittenIsGathered(bytes: seq<byte>, base: nat, unit: nat, ids: seq<nat>, data: seq<byte>)
    requires unit > 0 && AllFit(bytes, base, unit, ids) && Distinct(ids) && |data| <= |ids| * unit
    ensures Gather(WriteUnits(bytes, base, unit, ids, data), base, unit, ids)[..|data|] == data
    decreases |ids|
  {
    if ids != [] {
      var n := Min(unit, |data|);
      var next := Overwrite(bytes, UnitStart(base, unit, ids[0]), data[..n]);
      var out := WriteUnits(bytes, base, unit, ids, data);
      assert (|ids| - 1) * unit == |ids| * unit - unit;
      WrittenIsGathered(next, base, unit, ids[1..], data[n..]);
      FirstUnitWritten(bytes, base, unit, ids, data);
      JoinPieces(UnitAt(out, base, unit, ids[0]), Gather(out, base, unit, ids[1..]), data, n);
    }
  }

  /** A compound file whose stream `e` holds `data` in the units `ids`; the rest of the file is arbitrary. */
  function Lay(c: CompoundFile, data: seq<byte>, ids: seq<nat>): CompoundFile
    requires c.Valid()
    requires var s := StoreOf(c, |data|);
             AllFit(s.bytes, s.base, s.unit, ids) && forall i :: 0 <= i < |ids| ==> ids[i] < |s.table|
  {
    var s := StoreOf(c, |data|);
    var table, bytes := LinkUnits(s.table, ids), WriteUnits(s.bytes, s.base, s.unit, ids, data);
    if |data| < MINI_STREAM_CUTOFF then c.(miniFat := table, miniStream := bytes)
    else c.(fat := table, buffer := bytes)
  }

  /** Round trip: whatever the file, the data and the distinct units chosen for it, the laid-out stream is
      held by exactly those units and reads back as the data, from the mini stream or from the sectors. */
  lemma LaidStreamReadsBack(c: CompoundFile, data: seq<byte>, ids: seq<nat>)
    requires c.Valid() && data != []
    requires var s := StoreOf(c, |data|);
             && |ids| == CeilDiv(|data|, s.unit) && Distinct(ids)
             && AllFit(s.bytes, s.base, s.unit, ids) && forall i :: 0 <= i < |ids| ==> Allocatable(s.table, ids[i])
    ensures ids != [] && Lay(c, data, ids).Valid()
    ensures var s := StoreOf(Lay(c, data, ids), |data|);
            Holding(s, ids[0], |data|, ids) && StreamBytes(s, |data|, ids) == data
  {
    var s := StoreOf(c, |data|);
    LinkedIsChain(s.table, ids);
    WrittenIsGathered(s.bytes, s.base, s.unit, ids, data);
  }

  /** Reading a stream by its name gives the data that its units hold. */
  method ReadHeld(c: CompoundFile, ghost e: Entry, name: seq<nat>, ghost ids: seq<nat>, ghost data: seq<byte>)
    returns (r: Option<seq<byte>>)
    requires c.Valid() && DistinctNames(c.entries) && e in c.entries
    requires e.name == name && e.kind == STREAM && e.size == |data|
    requires var s := StoreOf(c, |data|); Holding(s, e.startSector, |data|, ids) && StreamBytes(s, |data|, ids) == data
    ensures r == Some(data)
  {
    ghost var i :| 0 <= i < |c.entries| && c.entries[i] == e;
    FindListed(c.entries, i);
    r := ReadStream(c, name);
  }

  /** Lays a stream out and reads it by its name: an entry of the stream's size that starts at its first
      unit gives the data back. */
  method LayAndRead(c: CompoundFile, e: Entry, data: seq<byte>, ids: seq<nat>) returns (r: Option<seq<byte>>)
    requires c.Valid() && DistinctNames(c.entries) && e in c.entries
    requires data != [] && e.kind == STREAM && e.size == |data|
    requires var s := StoreOf(c, |data|);
             && |ids| == CeilDiv(|data|, s.unit) && Distinct(ids)
             && AllFit(s.bytes, s.base, s.unit, ids) && forall i :: 0 <= i < |ids| ==> Allocatable(s.table, ids[i])
    requires ids != [] ==> e.startSector == ids[0]
    ensures r == Some(data)
  {
    LaidStreamReadsBack(c, data, ids);
    r := ReadHeld(Lay(c, data, ids), e, e.name, ids, data);
  }
}
