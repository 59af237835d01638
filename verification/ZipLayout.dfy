/** Writing a ZIP archive, and the round trip through the reader. */
module ZipLayout {
  import opened Bytes
  import opened Texts
  import opened Wrappers
  import opened ZipPackages

  /** One archive member. `packed` is what is stored, `size` the unpacked length. */
  datatype Member = Member(
    rawName: seq<byte>,
    flags: nat,
    compression: nat,
    packed: seq<byte>,
    size: nat,
    localExtra: seq<byte>,
    centralExtra: seq<byte>,
    comment: seq<byte>)
  {
    /** The fields fit their widths and the reader supports the member. */
    predicate Writable() {
      && 0 < |rawName| < 0x1_0000 && flags < 0x1_0000 && flags % 2 == 0
      && (compression == 0 || compression == 8)
      && |packed| < 0xffff_ffff && size < 0xffff_ffff
      && |localExtra| < 0x1_0000 && |centralExtra| < 0x1_0000 && |comment| < 0x1_0000
    }
  }

  /** `h` is a local file header of `f` (APPNOTE section 4.3.7); versions, times and checksums are free. */
  predicate IsLocalHeader(h: seq<byte>, f: Member) {
    && |h| == 30 && U32(h, 0) == 0x04034b50 && U16(h, 6) == f.flags && U16(h, 8) == f.compression
    && U16(h, 26) == |f.rawName| && U16(h, 28) == |f.localExtra|
  }

  /** `h` is a central directory header of `f` (APPNOTE section 4.3.12), its local part at `offset`. */
  predicate IsCentralHeader(h: seq<byte>, f: Member, offset: nat) {
    && |h| == 46 && U32(h, 0) == 0x02014b50 && U16(h, 8) == f.flags && U16(h, 10) == f.compression
    && U32(h, 20) == |f.packed| && U32(h, 24) == f.size && U16(h, 28) == |f.rawName|
    && U16(h, 30) == |f.centralExtra| && U16(h, 32) == |f.comment| && U16(h, 34) == 0 && U32(h, 42) == offset
  }

  /** `e` is an end record with an empty comment (APPNOTE section 4.3.16). */
  predicate IsEnd(e: seq<byte>, count: nat, size: nat, offset: nat) {
    && |e| == 22 && U32(e, 0) == 0x06054b50 && U16(e, 4) == 0 && U16(e, 6) == 0
    && U16(e, 8) == count && U16(e, 10) == count && U32(e, 12) == size && U32(e, 16) == offset && U16(e, 20) == 0
  }

  /** A way of writing headers. */
  datatype Writer = Writer(
    local: Member -> seq<byte>,
    central: (Member, nat) -> seq<byte>,
    end: (nat, nat, nat) -> seq<byte>)
  {
    ghost predicate Conforms() {
      && (forall f: Member :: f.Writable() ==> IsLocalHeader(local(f), f))
      && (forall f: Member, offset: nat :: f.Writable() && offset < 0xffff_ffff ==>
            IsCentralHeader(central(f, offset), f, offset))
      && (forall n: nat, size: nat, offset: nat :: n < 0x1_0000 && size < 0xffff_ffff && offset < 0xffff_ffff ==>
            IsEnd(end(n, size, offset), n, size, offset))
    }

    function LocalPart(f: Member): seq<byte> {
      local(f) + f.rawName + f.localExtra + f.packed
    }

    function CentralPart(f: Member, offset: nat): seq<byte> {
      central(f, offset) + f.rawName + f.centralExtra + f.comment
    }

    function Locals(files: seq<Member>): seq<byte> {
      if files == [] then [] else LocalPart(files[0]) + Locals(files[1..])
    }

    /** The central records of members whose local parts start at `offset`. */
    function Centrals(files: seq<Member>, offset: nat): seq<byte> {
      if files == [] then []
      else CentralPart(files[0], offset) + Centrals(files[1..], offset + |LocalPart(files[0])|)
    }

    function EntriesFor(files: seq<Member>, offset: nat, decode: Decoder): (es: seq<ZipEntry>)
      ensures |es| == |files|
    {
      if files == [] then []
      else
        var f := files[0];
        [ZipEntry(decode(f.rawName), f.flags, f.compression, |f.packed|, f.size, offset)]
        + EntriesFor(files[1..], offset + |LocalPart(f)|, decode)
    }

    /** The archive: local parts, central directory, end record with an empty comment. */
    function Archive(files: seq<Member>): seq<byte> {
      Locals(files) + Centrals(files, 0) + end(|files|, |Centrals(files, 0)|, |Locals(files)|)
    }

    /** The format's limits and the reader's limits on the members: at most 2,048 of them, of at most 100 MiB in all,
        whose names are distinct, not empty, relative, and without backslash, null character or parent segment. */
    ghost predicate Acceptable(files: seq<Member>, decode: Decoder) {
      && 0 < |files| <= 2_048 && AllWritable(files)
      && |Locals(files)| < 0xffff_ffff && |Centrals(files, 0)| < 0xffff_ffff && SizeOf(files) <= 104_857_600
      && (forall i :: 0 <= i < |files| ==>
            var name := decode(files[i].rawName);
            && name != "" && name[0] != '/' && '\\' !in name && '\0' !in name && ".." !in Split(name, '/'))
      && forall i, j :: 0 <= i < j < |files| ==> decode(files[i].rawName) != decode(files[j].rawName)
    }
  }

  predicate AllWritable(files: seq<Member>) {
    forall i :: 0 <= i < |files| ==> files[i].Writable()
  }

  /** The unpacked size of all members. */
  function SizeOf(files: seq<Member>): nat {
    if files == [] then 0 else files[0].size + SizeOf(files[1..])
  }

  /** A central record anywhere in a buffer reads back as its member's entry and ends after its comment. */
  lemma RecordReadsBack(b: seq<byte>, at: nat, limit: nat, h: seq<byte>, f: Member, offset: nat, decode: Decoder)
    requires f.Writable() && offset < 0xffff_ffff && IsCentralHeader(h, f, offset)
    requires Holds(b, at, h) && Holds(b, at + 46, f.rawName)
    requires at + 46 + |f.rawName| + |f.centralExtra| + |f.comment| <= limit <= |b|
    ensures RecordAt(b, at, limit, decode)
         == Some((ZipEntry(decode(f.rawName), f.flags, f.compression, |f.packed|, f.size, offset),
                  at + 46 + |f.rawName| + |f.centralExtra| + |f.comment|))
  {
    HoldsU32(b, at, h, 0);
    HoldsU16(b, at, h, 8);
    HoldsU16(b, at, h, 10);
    HoldsU32(b, at, h, 20);
    HoldsU32(b, at, h, 24);
    HoldsU16(b, at, h, 28);
    HoldsU16(b, at, h, 30);
    HoldsU16(b, at, h, 32);
    HoldsU16(b, at, h, 34);
    HoldsU32(b, at, h, 42);
  }

  /** `reader` reads every written central part inside [0, limit) as its member's entry. */
  ghost predicate ReadsParts(w: Writer, reader: Reader, b: seq<byte>, limit: nat, decode: Decoder) {
    forall at: nat, f: Member, offset: nat {:trigger Holds(b, at, w.CentralPart(f, offset))} ::
      f.Writable() && offset < 0xffff_ffff
      && Holds(b, at, w.CentralPart(f, offset)) && at + |w.CentralPart(f, offset)| <= limit ==>
        reader(at) == Some((ZipEntry(decode(f.rawName), f.flags, f.compression, |f.packed|, f.size, offset),
                            at + |w.CentralPart(f, offset)|))
  }

  /** A written central part starts with its header, followed by the name. */
  lemma CentralPartHeld(w: Writer, b: seq<byte>, at: nat, f: Member, offset: nat)
    requires w.Conforms() && f.Writable() && offset < 0xffff_ffff && Holds(b, at, w.CentralPart(f, offset))
    ensures IsCentralHeader(w.central(f, offset), f, offset)
    ensures Holds(b, at, w.central(f, offset)) && Holds(b, at + 46, f.rawName)
    ensures |w.CentralPart(f, offset)| == 46 + |f.rawName| + |f.centralExtra| + |f.comment|
  {
    var h := w.central(f, offset);
    assert IsCentralHeader(h, f, offset);
    HoldsSplit(b, at, h + f.rawName + f.centralExtra, f.comment);
    HoldsSplit(b, at, h + f.rawName, f.centralExtra);
    HoldsSplit(b, at, h, f.rawName);
  }

  lemma CentralPartReadsBack(w: Writer, b: seq<byte>, at: nat, limit: nat, f: Member, offset: nat, decode: Decoder)
    requires w.Conforms() && f.Writable() && offset < 0xffff_ffff
    requires Holds(b, at, w.CentralPart(f, offset)) && at + |w.CentralPart(f, offset)| <= limit <= |b|
    ensures RecordAt(b, at, limit, decode)
         == Some((ZipEntry(decode(f.rawName), f.flags, f.compression, |f.packed|, f.size, offset),
                  at + |w.CentralPart(f, offset)|))
  {
    CentralPartHeld(w, b, at, f, offset);
    RecordReadsBack(b, at, limit, w.central(f, offset), f, offset, decode);
  }

  /** The source's record reader is such a reader, whatever else the buffer holds. */
  lemma RecordReaderReadsParts(w: Writer, b: seq<byte>, limit: nat, decode: Decoder)
    requires w.Conforms() && limit <= |b|
    ensures ReadsParts(w, RecordReader(b, limit, decode), b, limit, decode)
  {
    forall at: nat, f: Member, offset: nat {:trigger Holds(b, at, w.CentralPart(f, offset))}
      | f.Writable() && offset < 0xffff_ffff
        && Holds(b, at, w.CentralPart(f, offset)) && at + |w.CentralPart(f, offset)| <= limit
      ensures RecordAt(b, at, limit, decode)
           == Some((ZipEntry(decode(f.rawName), f.flags, f.compression, |f.packed|, f.size, offset),
                    at + |w.CentralPart(f, offset)|))
    {
      CentralPartReadsBack(w, b, at, limit, f, offset, decode);
    }
  }

  lemma {:induction false} CentralsTile(w: Writer, reader: Reader, b: seq<byte>, at: nat, limit: nat,
                                        files: seq<Member>, offset: nat, decode: Decoder)
    requires ReadsParts(w, reader, b, limit, decode)
    requires AllWritable(files) && offset + |w.Locals(files)| < 0xffff_ffff
    requires Holds(b, at, w.Centrals(files, offset)) && at + |w.Centrals(files, offset)| <= limit
    ensures Tiles(reader, at, at + |w.Centrals(files, offset)|, w.EntriesFor(files, offset, decode))
    decreases |files|
  {
    if files != [] {
      var part, next := w.CentralPart(files[0], offset), offset + |w.LocalPart(files[0])|;
      HoldsSplit(b, at, part, w.Centrals(files[1..], next));
      CentralsTile(w, reader, b, at + |part|, limit, files[1..], next, decode);
    }
  }

  lemma EndReadsBack(b: seq<byte>, at: nat, e: seq<byte>, count: nat, size: nat, offset: nat)
    requires Holds(b, at, e) && at + 22 == |b| && IsEnd(e, count, size, offset)
    requires 0 < count <= MAX_ENTRIES && size < 0xffff_ffff && offset < 0xffff_ffff && offset + size <= at
    ensures IsLastEndRecord(b, at) && EndFields(b, at) == Some(Announced(count, offset, offset + size))
  {
    HoldsU32(b, at, e, 0);
    HoldsU16(b, at, e, 4);
    HoldsU16(b, at, e, 6);
    HoldsU16(b, at, e, 8);
    HoldsU16(b, at, e, 10);
    HoldsU32(b, at, e, 12);
    HoldsU32(b, at, e, 16);
    HoldsU16(b, at, e, 20);
  }

  lemma StartsWithPK(h: seq<byte>)
    requires |h| >= 4 && U32(h, 0) == LOCAL_SIGNATURE
    ensures h[..2] == [0x50, 0x4b]
  {
  }

  /** A written local part starts with its header, and its name and packed bytes follow where the header says. */
  lemma LocalPartHeld(w: Writer, b: seq<byte>, at: nat, f: Member)
    requires w.Conforms() && f.Writable() && Holds(b, at, w.LocalPart(f))
    ensures IsLocalHeader(w.local(f), f) && Holds(b, at, w.local(f)) && Holds(b, at + 30, f.rawName)
    ensures Holds(b, at + 30 + |f.rawName| + |f.localExtra|, f.packed)
  {
    var h := w.local(f);
    assert IsLocalHeader(h, f);
    HoldsSplit(b, at, h + f.rawName + f.localExtra, f.packed);
    HoldsSplit(b, at, h + f.rawName, f.localExtra);
    HoldsSplit(b, at, h, f.rawName);
  }

  /** Where the archive's parts lie. */
  lemma ArchiveParts(w: Writer, files: seq<Member>)
    ensures var b, locals, centrals := w.Archive(files), w.Locals(files), w.Centrals(files, 0);
            && Holds(b, 0, locals) && Holds(b, |locals|, centrals)
            && Holds(b, |locals| + |centrals|, w.end(|files|, |centrals|, |locals|))
  {
    var b, locals, centrals := w.Archive(files), w.Locals(files), w.Centrals(files, 0);
    var e := w.end(|files|, |centrals|, |locals|);
    assert Holds(b, 0, locals + centrals + e);
    HoldsSplit(b, 0, locals + centrals, e);
    HoldsSplit(b, 0, locals, centrals);
  }

  lemma ArchiveStartsWithPK(w: Writer, b: seq<byte>, files: seq<Member>)
    requires w.Conforms() && files != [] && files[0].Writable() && Holds(b, 0, w.Locals(files))
    ensures |b| >= 2 && b[..2] == [0x50, 0x4b]
  {
    HoldsSplit(b, 0, w.LocalPart(files[0]), w.Locals(files[1..]));
    LocalPartHeld(w, b, 0, files[0]);
    var h := w.local(files[0]);
    StartsWithPK(h);
    assert b[..2] == h[..2];
  }

  /** The archive's end record is the last one, and announces the central directory. */
  lemma ArchiveEnds(w: Writer, files: seq<Member>)
    requires w.Conforms() && 0 < |files| <= MAX_ENTRIES && files[0].Writable()
    requires |w.Locals(files)| < 0xffff_ffff && |w.Centrals(files, 0)| < 0xffff_ffff
    ensures var b, from, at := w.Archive(files), |w.Locals(files)|, |w.Locals(files)| + |w.Centrals(files, 0)|;
            |b| == at + 22 && LastFields(b, at) == Some(Announced(|files|, from, at))
  {
    var b, locals, centrals := w.Archive(files), w.Locals(files), w.Centrals(files, 0);
    ArchiveParts(w, files);
    ArchiveStartsWithPK(w, b, files);
    EndReadsBack(b, |locals| + |centrals|, w.end(|files|, |centrals|, |locals|), |files|, |centrals|, |locals|);
  }

  lemma {:induction false} EntryOf(w: Writer, files: seq<Member>, offset: nat, decode: Decoder, i: nat)
    requires i < |files|
    ensures w.EntriesFor(files, offset, decode)[i].name == decode(files[i].rawName)
    ensures w.EntriesFor(files, offset, decode)[i].uncompressedSize == files[i].size
    decreases |files|
  {
    if i > 0 {
      EntryOf(w, files[1..], offset + |w.LocalPart(files[0])|, decode, i - 1);
    }
  }

  lemma {:induction false} TotalFromFront(e: ZipEntry, es: seq<ZipEntry>)
    ensures Total([e] + es) == e.uncompressedSize + Total(es)
    decreases |es|
  {
    if es == [] {
      assert [e] + es == [e] && [e][..0] == [];
    } else {
      TotalFromFront(e, es[..|es| - 1]);
      assert ([e] + es)[..|es|] == [e] + es[..|es| - 1];
    }
  }

  lemma {:induction false} TotalOfMembers(w: Writer, files: seq<Member>, offset: nat, decode: Decoder)
    ensures Total(w.EntriesFor(files, offset, decode)) == SizeOf(files)
    decreases |files|
  {
    if files != [] {
      var next := offset + |w.LocalPart(files[0])|;
      var es := w.EntriesFor(files, offset, decode);
      TotalOfMembers(w, files[1..], next, decode);
      TotalFromFront(es[0], w.EntriesFor(files[1..], next, decode));
      assert es == [es[0]] + w.EntriesFor(files[1..], next, decode);
    }
  }

  /** The entries of acceptable members pass the reader's checks. */
  lemma MembersAreAccepted(w: Writer, files: seq<Member>, decode: Decoder)
    requires w.Acceptable(files, decode)
    ensures var es := w.EntriesFor(files, 0, decode);
            AllSafe(es) && DistinctNames(es) && Total(es) <= MAX_UNCOMPRESSED && |es| <= MAX_ENTRIES
  {
    TotalOfMembers(w, files, 0, decode);
    forall i | 0 <= i < |files|
      ensures w.EntriesFor(files, 0, decode)[i].name == decode(files[i].rawName)
    {
      EntryOf(w, files, 0, decode, i);
    }
  }

  /** For any reader that reads the written parts, the archive's central directory lists the members. */
  lemma ArchiveLists(w: Writer, files: seq<Member>, decode: Decoder, reader: Reader)
    requires w.Acceptable(files, decode)
    requires ReadsParts(w, reader, w.Archive(files), |w.Locals(files)| + |w.Centrals(files, 0)|, decode)
    ensures IsListing(reader, |w.Locals(files)|, |w.Locals(files)| + |w.Centrals(files, 0)|, |files|,
                      w.EntriesFor(files, 0, decode))
  {
    var b, from, at := w.Archive(files), |w.Locals(files)|, |w.Locals(files)| + |w.Centrals(files, 0)|;
    ArchiveParts(w, files);
    MembersAreAccepted(w, files, decode);
    CentralsTile(w, reader, b, from, at, files, 0, decode);
  }

  lemma EveryReaderLists(w: Writer, files: seq<Member>, decode: Decoder, b: seq<byte>, from: nat, at: nat,
                         entries: seq<ZipEntry>)
    requires w.Acceptable(files, decode) && b == w.Archive(files)
    requires from == |w.Locals(files)| && at == from + |w.Centrals(files, 0)|
    requires entries == w.EntriesFor(files, 0, decode)
    ensures |entries| == |files|
    ensures forall reader: Reader | ReadsParts(w, reader, b, at, decode) ::
              IsListing(reader, from, at, |files|, entries)
  {
    MembersAreAccepted(w, files, decode);
    forall reader: Reader | ReadsParts(w, reader, b, at, decode)
      ensures IsListing(reader, from, at, |files|, entries)
    {
      ArchiveLists(w, files, decode, reader);
    }
  }

  /** What every reader of the written parts lists, the record reader lists. */
  lemma RecordsAreListed(w: Writer, b: seq<byte>, decode: Decoder, from: nat, at: nat, entries: seq<ZipEntry>)
    requires w.Conforms() && at <= |b| && LastFields(b, at) == Some(Announced(|entries|, from, at))
    requires forall reader: Reader | ReadsParts(w, reader, b, at, decode) ::
               IsListing(reader, from, at, |entries|, entries)
    ensures IsPackage(b, decode, at, entries)
  {
    RecordReaderReadsParts(w, b, at, decode);
  }

  /** Round trip: however the free header fields are filled, the archive of any acceptable members is a package
      with exactly the members' entries. */
  lemma ArchiveParses(w: Writer, files: seq<Member>, decode: Decoder)
    requires w.Conforms() && w.Acceptable(files, decode)
    ensures var end, entries := |w.Locals(files)| + |w.Centrals(files, 0)|, w.EntriesFor(files, 0, decode);
            IsPackage(w.Archive(files), decode, end, entries)
  {
    var b, from, at := w.Archive(files), |w.Locals(files)|, |w.Locals(files)| + |w.Centrals(files, 0)|;
    ArchiveEnds(w, files);
    EveryReaderLists(w, files, decode, b, from, at, w.EntriesFor(files, 0, decode));
    RecordsAreListed(w, b, decode, from, at, w.EntriesFor(files, 0, decode));
  }

  // ---- Reading members back ------------------------------------------------------------------

  /** Every member's entry describes it and points at its local part. */
  lemma {:induction false} LocalHeld(w: Writer, b: seq<byte>, at: nat, files: seq<Member>, decode: Decoder, i: nat)
    requires i < |files| && Holds(b, at, w.Locals(files))
    ensures var e := w.EntriesFor(files, at, decode)[i];
            && e == ZipEntry(decode(files[i].rawName), files[i].flags, files[i].compression, |files[i].packed|,
                             files[i].size, e.localOffset)
            && Holds(b, e.localOffset, w.LocalPart(files[i]))
    decreases |files|
  {
    var part := w.LocalPart(files[0]);
    HoldsSplit(b, at, part, w.Locals(files[1..]));
    if i > 0 {
      LocalHeld(w, b, at + |part|, files[1..], decode, i - 1);
    }
  }

  /** What a member's stored bytes unpack to. */
  function Unpacked(f: Member, inflate: Inflater): Option<seq<byte>> {
    if f.compression == 0 then Some(f.packed) else inflate(f.packed)
  }

  lemma LocalFields(b: seq<byte>, at: nat, h: seq<byte>, f: Member)
    requires IsLocalHeader(h, f) && Holds(b, at, h)
    ensures U32(b, at) == LOCAL_SIGNATURE && U16(b, at + 6) == f.flags && U16(b, at + 8) == f.compression
    ensures U16(b, at + 26) == |f.rawName| && U16(b, at + 28) == |f.localExtra|
  {
    HoldsU32(b, at, h, 0);
    HoldsU16(b, at, h, 6);
    HoldsU16(b, at, h, 8);
    HoldsU16(b, at, h, 26);
    HoldsU16(b, at, h, 28);
  }

  /** An entry found in the map reads as its member's text when its local part is where it says. */
  lemma LocalPartReads(p: ZipPackage, e: ZipEntry, f: Member, h: seq<byte>, decode: Decoder, inflate: Inflater)
    requires Find(p.entries, e.name) == Some(e) && IsLocalHeader(h, f)
    requires e == ZipEntry(decode(f.rawName), f.flags, f.compression, |f.packed|, f.size, e.localOffset)
    requires f.size <= MAX_INSPECTED && Unpacked(f, inflate).Some? && |Unpacked(f, inflate).value| == f.size
    requires Holds(p.buffer, e.localOffset, h) && Holds(p.buffer, e.localOffset + 30, f.rawName)
    requires Holds(p.buffer, e.localOffset + 30 + |f.rawName| + |f.localExtra|, f.packed)
    ensures ReadText(p, e.name, decode, inflate) == Some(decode(Unpacked(f, inflate).value))
  {
    var b, at := p.buffer, e.localOffset;
    LocalFields(b, at, h, f);
    var nameEnd := at + 30 + |f.rawName|;
    var dataStart := nameEnd + |f.localExtra|;
    assert b[at + 30..nameEnd] == f.rawName && b[dataStart..dataStart + |f.packed|] == f.packed;
  }

  /** A member's entry is found by name, and its local part is where the entry says. */
  lemma MemberFound(w: Writer, files: seq<Member>, decode: Decoder, i: nat)
    requires i < |files| && DistinctNames(w.EntriesFor(files, 0, decode))
    ensures var b, es, f := w.Archive(files), w.EntriesFor(files, 0, decode), files[i];
            && es[i] == ZipEntry(decode(f.rawName), f.flags, f.compression, |f.packed|, f.size, es[i].localOffset)
            && Holds(b, es[i].localOffset, w.LocalPart(f))
            && Find(es, es[i].name) == Some(es[i])
  {
    ArchiveParts(w, files);
    LocalHeld(w, w.Archive(files), 0, files, decode, i);
    FindListed(w.EntriesFor(files, 0, decode), i);
  }

  /** The same, for a package whose entry `e` points at a written local part. */
  lemma WrittenPartReads(w: Writer, p: ZipPackage, e: ZipEntry, f: Member, decode: Decoder, inflate: Inflater)
    requires w.Conforms() && f.Writable() && Find(p.entries, e.name) == Some(e)
    requires e == ZipEntry(decode(f.rawName), f.flags, f.compression, |f.packed|, f.size, e.localOffset)
    requires f.size <= MAX_INSPECTED && Unpacked(f, inflate).Some? && |Unpacked(f, inflate).value| == f.size
    requires Holds(p.buffer, e.localOffset, w.LocalPart(f))
    ensures ReadText(p, e.name, decode, inflate) == Some(decode(Unpacked(f, inflate).value))
  {
    LocalPartHeld(w, p.buffer, e.localOffset, f);
    LocalPartReads(p, e, f, w.local(f), decode, inflate);
  }

  /** Round trip of contents: every inspectable member of a written archive reads back as its own text. */
  lemma MemberReadsBack(w: Writer, files: seq<Member>, decode: Decoder, inflate: Inflater, i: nat, p: ZipPackage)
    requires w.Conforms() && w.Acceptable(files, decode) && i < |files|
    requires files[i].size <= 2_097_152
    requires Unpacked(files[i], inflate).Some? && |Unpacked(files[i], inflate).value| == files[i].size
    requires p.buffer == w.Archive(files) && p.entries == w.EntriesFor(files, 0, decode)
    ensures ReadText(p, decode(files[i].rawName), decode, inflate) == Some(decode(Unpacked(files[i], inflate).value))
  {
    MembersAreAccepted(w, files, decode);
    MemberFound(w, files, decode, i);
    WrittenPartReads(w, p, p.entries[i], files[i], decode, inflate);
  }

  // ---- A concrete writer ---------------------------------------------------------------------

  function ZeroBytes(n: nat): (b: seq<byte>)
    ensures |b| == n
  {
    seq(n, i => 0)
  }

  function LocalHeader(f: Member): (h: seq<byte>)
    ensures f.Writable() ==> IsLocalHeader(h, f)
  {
    if !f.Writable() then [] else
    var front := PutU32(LOCAL_SIGNATURE) + PutU16(20) + PutU16(f.flags) + PutU16(f.compression);
    var back := PutU16(|f.rawName|) + PutU16(|f.localExtra|);
    front + (ZeroBytes(8) + PutU32(|f.packed|) + PutU32(f.size)) + back
  }

  function CentralHeader(f: Member, offset: nat): (h: seq<byte>)
    ensures f.Writable() && offset < 0xffff_ffff ==> IsCentralHeader(h, f, offset)
  {
    if !f.Writable() || offset >= 0xffff_ffff then [] else
    var front := PutU32(CENTRAL_SIGNATURE) + (PutU16(20) + PutU16(20)) + PutU16(f.flags) + PutU16(f.compression);
    var sizes := PutU32(|f.packed|) + PutU32(f.size);
    var lengths := PutU16(|f.rawName|) + PutU16(|f.centralExtra|) + PutU16(|f.comment|) + PutU16(0);
    front + ZeroBytes(8) + sizes + lengths + ZeroBytes(6) + PutU32(offset)
  }

  function EndHeader(count: nat, size: nat, offset: nat): (e: seq<byte>)
    ensures count < 0x1_0000 && size < 0xffff_ffff && offset < 0xffff_ffff ==> IsEnd(e, count, size, offset)
  {
    if count >= 0x1_0000 || size >= 0xffff_ffff || offset >= 0xffff_ffff then [] else
    PutU32(EOCD_SIGNATURE) + PutU16(0) + PutU16(0) + PutU16(count) + PutU16(count)
    + PutU32(size) + PutU32(offset) + PutU16(0)
  }

  /** The writer used by the repository's tests: zero times and checksums. */
  const PLAIN_WRITER: Writer := Writer(LocalHeader, CentralHeader, EndHeader)

  /** The conforming writers are not empty: the plain one conforms. */
  lemma PlainWriterConforms()
    ensures PLAIN_WRITER.Conforms()
  {
  }
}
