/** The scan of JPEG, PNG and WebP files for an Exif block that points to GPS data. */
module ExifGps {
  import opened Bytes

  // ---- TIFF ----------------------------------------------------------------------------------

  datatype ByteOrder = Little | Big

  function Mark(o: ByteOrder): seq<byte> {
    match o
    case Little => [0x49, 0x49]
    case Big => [0x4d, 0x4d]
  }

  function Word16(o: ByteOrder, b: seq<byte>, at: nat): nat
    requires at + 2 <= |b|
  {
    match o
    case Little => U16(b, at)
    case Big => BigU16(b, at)
  }

  function Word32(o: ByteOrder, b: seq<byte>, at: nat): nat
    requires at + 4 <= |b|
  {
    match o
    case Little => U32(b, at)
    case Big => BigU32(b, at)
  }

  const GPS_TAG: nat := 0x8825

  /** The header is a TIFF header in byte order `o`, and its first IFD starts inside the block. */
  predicate IsTiff(o: ByteOrder, t: seq<byte>) {
    |t| >= 8 && t[..2] == Mark(o) && Word16(o, t, 2) == 42 && Word32(o, t, 4) + 2 <= |t|
  }

  /** The entry at `at` lies inside the block and has the tag. */
  predicate IsTagged(o: ByteOrder, t: seq<byte>, at: nat, tag: nat) {
    at + 12 <= |t| && Word16(o, t, at) == tag
  }

  /** Entry `i` of the first IFD lies inside the block and has the tag. */
  predicate HasTagAt(o: ByteOrder, t: seq<byte>, i: nat, tag: nat) {
    |t| >= 8 && IsTagged(o, t, Word32(o, t, 4) + 2 + 12 * i, tag)
  }

  /** Some entry of the first IFD points to GPS data. */
  ghost predicate TiffHasGps(t: seq<byte>) {
    exists o, i: nat :: IsTiff(o, t) && i < Word16(o, t, Word32(o, t, 4)) && HasTagAt(o, t, i, GPS_TAG)
  }

  lemma OneByteOrder(t: seq<byte>, o: ByteOrder)
    requires |t| >= 2 && t[..2] == Mark(o)
    ensures forall p :: IsTiff(p, t) ==> p == o
  {
    assert Mark(Little)[0] == 0x49 && Mark(Big)[0] == 0x4d;
    assert t[..2][0] == t[0];
  }

  lemma SliceWords(b: seq<byte>, offset: nat, length: nat, o: ByteOrder, at: nat)
    requires offset + length <= |b|
    ensures at + 2 <= length ==> Word16(o, b, offset + at) == Word16(o, b[offset..offset + length], at)
    ensures at + 4 <= length ==> Word32(o, b, offset + at) == Word32(o, b[offset..offset + length], at)
  {
  }

  /** Entry `i` of the first IFD of a block in the given byte order has the GPS tag. */
  ghost predicate PointsToGps(t: seq<byte>, little: bool, i: nat) {
    && 8 <= |t|
    && if little then
         && t[0] == 0x49 && t[1] == 0x49 && U16(t, 2) == 42 && U32(t, 4) + 2 <= |t| && i < U16(t, U32(t, 4))
         && U32(t, 4) + 2 + 12 * i + 12 <= |t| && U16(t, U32(t, 4) + 2 + 12 * i) == 0x8825
       else
         && t[0] == 0x4d && t[1] == 0x4d && BigU16(t, 2) == 42 && BigU32(t, 4) + 2 <= |t| && i < BigU16(t, BigU32(t, 4))
         && BigU32(t, 4) + 2 + 12 * i + 12 <= |t| && BigU16(t, BigU32(t, 4) + 2 + 12 * i) == 0x8825
  }

  lemma GpsIn(t: seq<byte>, o: ByteOrder, i: nat)
    ensures IsTiff(o, t) && i < Word16(o, t, Word32(o, t, 4)) && HasTagAt(o, t, i, GPS_TAG) <==>
              PointsToGps(t, o == Little, i)
  {
    if |t| >= 2 {
      assert t[..2] == [t[0], t[1]];
    }
  }

  /** A block has GPS data exactly when, in the byte order its mark names, an entry of the first IFD has tag 0x8825. */
  lemma GpsIsExact(t: seq<byte>)
    ensures TiffHasGps(t) <==> exists little: bool, i: nat :: PointsToGps(t, little, i)
  {
    forall o: ByteOrder, i: nat
      ensures IsTiff(o, t) && i < Word16(o, t, Word32(o, t, 4)) && HasTagAt(o, t, i, GPS_TAG) <==>
                PointsToGps(t, o == Little, i)
    {
      GpsIn(t, o, i);
    }
    if little: bool, i: nat :| PointsToGps(t, little, i) {
      var o := if little then Little else Big;
      assert IsTiff(o, t) && i < Word16(o, t, Word32(o, t, 4)) && HasTagAt(o, t, i, GPS_TAG);
    }
  }

  /** Reads the TIFF block inside the file. */
  method TiffContainsGps(b: seq<byte>, offset: nat, length: nat) returns (found: bool)
    ensures found <==> offset + length <= |b| && TiffHasGps(b[offset..offset + length])
  {
    if length < 8 || offset + length > |b| {
      return false;
    }
    ghost var t := b[offset..offset + length];
    var mark := b[offset..offset + 2];
    assert mark == t[..2];
    if mark != Mark(Little) && mark != Mark(Big) {
      return false;
    }
    var o := if mark == Mark(Little) then Little else Big;
    OneByteOrder(t, o);
    SliceWords(b, offset, length, o, 2);
    SliceWords(b, offset, length, o, 4);
    if Word16(o, b, offset + 2) != 42 {
      return false;
    }
    var ifd := Word32(o, b, offset + 4);
    if ifd + 2 > length {
      return false;
    }
    SliceWords(b, offset, length, o, ifd);
    var count := Word16(o, b, offset + ifd);
    for i := 0 to count
      invariant forall j: nat :: j < i ==> !HasTagAt(o, t, j, GPS_TAG)
    {
      var entry := ifd + 2 + 12 * i;
      if entry + 12 > length {
        return false;
      }
      SliceWords(b, offset, length, o, entry);
      if Word16(o, b, offset + entry) == GPS_TAG {
        assert HasTagAt(o, t, i, GPS_TAG);
        return true;
      }
    }
    return false;
  }

  // ---- Walking a file ------------------------------------------------------------------------

  /** What a walker does at an offset: stop without a finding, report, or go on. */
  datatype Step = Stop | Found | Skip(next: nat)

  /** A walk that starts at `at`, goes on at every offset but its last, and reports there. */
  ghost predicate IsFinding(step: nat -> Step, at: nat, walk: seq<nat>) {
    && walk != [] && walk[0] == at && step(walk[|walk| - 1]) == Found
    && forall i :: 0 <= i < |walk| - 1 ==> step(walk[i]) == Skip(walk[i + 1])
  }

  ghost predicate Finds(step: nat -> Step, at: nat) {
    exists walk :: IsFinding(step, at, walk)
  }

  lemma FindingGoesOn(step: nat -> Step, at: nat, walk: seq<nat>)
    ensures IsFinding(step, at, walk) ==> step(at) != Stop
  {
    if IsFinding(step, at, walk) && |walk| > 1 {
      assert step(walk[0]) == Skip(walk[1]);
    }
  }

  /** A walk is determined step by step. */
  lemma FindsNext(step: nat -> Step, at: nat)
    ensures Finds(step, at) == match step(at) case Stop => false case Found => true case Skip(next) => Finds(step, next)
  {
    match step(at) {
      case Stop =>
        forall walk
          ensures !IsFinding(step, at, walk)
        {
          FindingGoesOn(step, at, walk);
        }
      case Found =>
        assert IsFinding(step, at, [at]);
      case Skip(next) =>
        if Finds(step, next) {
          var walk :| IsFinding(step, next, walk);
          assert IsFinding(step, at, [at] + walk);
        }
        if Finds(step, at) {
          var walk :| IsFinding(step, at, walk);
          assert |walk| > 1;
          assert IsFinding(step, next, walk[1..]);
        }
    }
  }

  /** Pieces laid out one after another. */
  function Layout<C>(pieces: seq<C>, lay: C -> seq<byte>): seq<byte> {
    if pieces == [] then [] else lay(pieces[0]) + Layout(pieces[1..], lay)
  }

  ghost predicate Any<C>(pieces: seq<C>, gps: C -> bool) {
    exists i :: 0 <= i < |pieces| && gps(pieces[i])
  }

  lemma AnyNext<C>(pieces: seq<C>, gps: C -> bool)
    requires pieces != []
    ensures Any(pieces, gps) <==> gps(pieces[0]) || Any(pieces[1..], gps)
  {
    if i :| 0 <= i < |pieces[1..]| && gps(pieces[1..][i]) {
      assert gps(pieces[i + 1]);
    }
    if i :| 1 <= i < |pieces| && gps(pieces[i]) {
      assert gps(pieces[1..][i - 1]);
    }
  }

  /** Each valid piece that sits in the file is passed, or reported when it has GPS data. */
  ghost predicate ReadsPieces<C(!new)>(b: seq<byte>, valid: C -> bool, lay: C -> seq<byte>, gps: C -> bool,
                                       step: nat -> Step) {
    forall at: nat, c :: valid(c) && Holds(b, at, lay(c)) ==> step(at) == if gps(c) then Found else Skip(at + |lay(c)|)
  }

  /** Walking laid-out pieces up to a stop finds exactly whether one of them has GPS data. */
  lemma {:induction false} PiecesWalk<C(!new)>(b: seq<byte>, at: nat, pieces: seq<C>, valid: C -> bool,
                                               lay: C -> seq<byte>, gps: C -> bool, step: nat -> Step)
    requires ReadsPieces(b, valid, lay, gps, step) && forall i :: 0 <= i < |pieces| ==> valid(pieces[i])
    requires Holds(b, at, Layout(pieces, lay)) && step(at + |Layout(pieces, lay)|) == Stop
    ensures Finds(step, at) == Any(pieces, gps)
    decreases |pieces|
  {
    FindsNext(step, at);
    if pieces != [] {
      HoldsSplit(b, at, lay(pieces[0]), Layout(pieces[1..], lay));
      assert valid(pieces[0]) && forall i :: 0 <= i < |pieces[1..]| ==> pieces[1..][i] == pieces[i + 1];
      PiecesWalk(b, at + |lay(pieces[0])|, pieces[1..], valid, lay, gps, step);
      AnyNext(pieces, gps);
    }
  }

  /** Valid pieces lie from `at` on, and after them the core of a valid piece with GPS data. */
  ghost predicate LeadTo<C>(b: seq<byte>, at: nat, pieces: seq<C>, last: C, valid: C -> bool, lay: C -> seq<byte>,
                            core: C -> seq<byte>, gps: C -> bool) {
    && (forall i :: 0 <= i < |pieces| ==> valid(pieces[i])) && valid(last) && gps(last)
    && Holds(b, at, Layout(pieces, lay)) && Holds(b, at + |Layout(pieces, lay)|, core(last))
  }

  /** Complete pieces lead from `at` to one with GPS data, of which `core` is what the walk needs to see. */
  ghost predicate Reaches<C(!new)>(b: seq<byte>, at: nat, valid: C -> bool, lay: C -> seq<byte>, core: C -> seq<byte>,
                                   gps: C -> bool) {
    exists pieces: seq<C>, last: C :: LeadTo(b, at, pieces, last, valid, lay, core, gps)
  }

  /** A piece with GPS data is reported when its core sits in the file. */
  ghost predicate Reports<C(!new)>(b: seq<byte>, valid: C -> bool, core: C -> seq<byte>, gps: C -> bool,
                                   step: nat -> Step) {
    forall at: nat, c :: valid(c) && gps(c) && Holds(b, at, core(c)) ==> step(at) == Found
  }

  /** Only such pieces are reported, and only complete pieces are passed, except to where the walk stops. */
  ghost predicate OnlyPieces<C(!new)>(b: seq<byte>, valid: C -> bool, lay: C -> seq<byte>, core: C -> seq<byte>,
                                      gps: C -> bool, step: nat -> Step) {
    forall at: nat ::
      match step(at)
      case Stop => true
      case Found => exists c :: valid(c) && gps(c) && Holds(b, at, core(c))
      case Skip(next) =>
        step(next) == Stop || exists c :: valid(c) && Holds(b, at, lay(c)) && next == at + |lay(c)|
  }

  lemma {:induction false} ReachedIsFound<C(!new)>(b: seq<byte>, at: nat, pieces: seq<C>, last: C, valid: C -> bool,
                                                   lay: C -> seq<byte>, core: C -> seq<byte>, gps: C -> bool,
                                                   step: nat -> Step)
    requires ReadsPieces(b, valid, lay, gps, step) && Reports(b, valid, core, gps, step)
    requires LeadTo(b, at, pieces, last, valid, lay, core, gps)
    ensures Finds(step, at)
    decreases |pieces|
  {
    FindsNext(step, at);
    if pieces != [] {
      HoldsSplit(b, at, lay(pieces[0]), Layout(pieces[1..], lay));
      assert valid(pieces[0]) && forall i :: 0 <= i < |pieces[1..]| ==> pieces[1..][i] == pieces[i + 1];
      if !gps(pieces[0]) {
        ReachedIsFound(b, at + |lay(pieces[0])|, pieces[1..], last, valid, lay, core, gps, step);
      }
    }
  }

  lemma LeadFromEarlier<C>(b: seq<byte>, at: nat, first: C, pieces: seq<C>, last: C, valid: C -> bool,
                           lay: C -> seq<byte>, core: C -> seq<byte>, gps: C -> bool)
    requires valid(first) && Holds(b, at, lay(first))
    requires LeadTo(b, at + |lay(first)|, pieces, last, valid, lay, core, gps)
    ensures LeadTo(b, at, [first] + pieces, last, valid, lay, core, gps)
  {
    var all := [first] + pieces;
    assert all[0] == first && all[1..] == pieces;
    HoldsBoth(b, at, lay(first), Layout(pieces, lay));
  }

  lemma ReachesOneMore<C(!new)>(b: seq<byte>, at: nat, first: C, valid: C -> bool, lay: C -> seq<byte>,
                                core: C -> seq<byte>, gps: C -> bool)
    requires valid(first) && Holds(b, at, lay(first)) && Reaches(b, at + |lay(first)|, valid, lay, core, gps)
    ensures Reaches(b, at, valid, lay, core, gps)
  {
    var pieces: seq<C>, last: C :| LeadTo(b, at + |lay(first)|, pieces, last, valid, lay, core, gps);
    LeadFromEarlier(b, at, first, pieces, last, valid, lay, core, gps);
  }

  lemma HoldsBoth(b: seq<byte>, at: nat, p: seq<byte>, q: seq<byte>)
    requires Holds(b, at, p) && Holds(b, at + |p|, q)
    ensures Holds(b, at, p + q)
  {
    assert b[at..at + |p + q|] == b[at..at + |p|] + b[at + |p|..at + |p| + |q|];
  }

  lemma {:induction false} FoundIsReached<C(!new)>(b: seq<byte>, at: nat, walk: seq<nat>, valid: C -> bool,
                                                   lay: C -> seq<byte>, core: C -> seq<byte>, gps: C -> bool,
                                                   step: nat -> Step)
    requires OnlyPieces(b, valid, lay, core, gps, step) && IsFinding(step, at, walk) && at <= |b|
    ensures Reaches(b, at, valid, lay, core, gps)
    decreases |walk|
  {
    FindingGoesOn(step, at, walk);
    if |walk| == 1 {
      var c :| valid(c) && gps(c) && Holds(b, at, core(c));
      assert LeadTo(b, at, [], c, valid, lay, core, gps);
    } else {
      var next := walk[1];
      assert step(walk[0]) == Skip(next);
      FindingGoesOn(step, next, walk[1..]);
      assert IsFinding(step, next, walk[1..]);
      var c :| valid(c) && Holds(b, at, lay(c)) && next == at + |lay(c)|;
      FoundIsReached(b, next, walk[1..], valid, lay, core, gps, step);
      ReachesOneMore(b, at, c, valid, lay, core, gps);
    }
  }

  /** A walk that reads pieces finds GPS data exactly when complete pieces lead to one that has some. */
  lemma FindsIsReaches<C(!new)>(b: seq<byte>, at: nat, valid: C -> bool, lay: C -> seq<byte>, core: C -> seq<byte>,
                                gps: C -> bool, step: nat -> Step)
    requires at <= |b| && ReadsPieces(b, valid, lay, gps, step) && Reports(b, valid, core, gps, step)
    requires OnlyPieces(b, valid, lay, core, gps, step)
    ensures Finds(step, at) <==> Reaches(b, at, valid, lay, core, gps)
  {
    if Finds(step, at) {
      var walk :| IsFinding(step, at, walk);
      FoundIsReached(b, at, walk, valid, lay, core, gps, step);
    }
    if Reaches(b, at, valid, lay, core, gps) {
      var pieces: seq<C>, last: C :| LeadTo(b, at, pieces, last, valid, lay, core, gps);
      ReachedIsFound(b, at, pieces, last, valid, lay, core, gps, step);
    }
  }

  lemma HoldsBetween(b: seq<byte>, head: seq<byte>, body: seq<byte>, tail: seq<byte>)
    requires b == head + (body + tail)
    ensures Holds(b, |head|, body) && |b| == |head| + |body| + |tail|
  {
  }

  /** A slice of what a file starts with. */
  lemma SliceOfHead(b: seq<byte>, head: seq<byte>, rest: seq<byte>, from: nat, to: nat)
    requires b == head + rest && from <= to <= |head|
    ensures b[from..to] == head[from..to]
  {
  }

  // ---- JPEG ----------------------------------------------------------------------------------

  const EXIF_HEADER: seq<byte> := [0x45, 0x78, 0x69, 0x66, 0, 0]

  /** Section B.1.1.4 of ITU-T T.81: a marker, a two-byte length that includes itself, and the payload. */
  datatype Segment = Segment(marker: byte, payload: seq<byte>)

  /** The scan data or the end of the image follows. */
  predicate EndsHeader(marker: byte) {
    marker == 0xda || marker == 0xd9
  }

  predicate IsSegment(s: Segment) {
    |s.payload| <= 0xfffd && s.marker != 0xda && s.marker != 0xd9
  }

  /** The low two bytes of `v`, most significant first. */
  function BigBytes(v: nat): seq<byte> {
    [(v / 0x100 % 0x100) as byte, (v % 0x100) as byte]
  }

  function SegmentBytes(s: Segment): seq<byte> {
    [0xff, s.marker] + BigBytes(|s.payload| + 2) + s.payload
  }

  ghost predicate SegmentHasGps(s: Segment) {
    s.marker == 0xe1 && |s.payload| >= 14 && s.payload[..6] == [0x45, 0x78, 0x69, 0x66, 0, 0]
      && TiffHasGps(s.payload[6..])
  }

  /** What the JPEG walker does at an offset. */
  ghost function JpegStep(b: seq<byte>, at: nat): Step {
    if at + 4 > |b| || b[at] != 0xff || EndsHeader(b[at + 1]) then Stop
    else
      var length := BigU16(b, at + 2);
      if length < 2 || at + 2 + length > |b| then Stop
      else if SegmentHasGps(Segment(b[at + 1], b[at + 4..at + 2 + length])) then Found
      else Skip(at + 2 + length)
  }

  ghost function JpegWalk(b: seq<byte>): nat -> Step {
    (at: nat) => JpegStep(b, at)
  }

  ghost predicate JpegHasGps(b: seq<byte>) {
    |b| >= 4 && b[0] == 0xff && b[1] == 0xd8 && Finds(JpegWalk(b), 2)
  }

  /** Whether the segment of the given length at `offset` is an Exif segment with GPS data. */
  method SegmentContainsGps(b: seq<byte>, offset: nat, segmentLength: nat) returns (found: bool)
    requires 2 <= segmentLength && offset + 2 + segmentLength <= |b|
    ensures found <==> SegmentHasGps(Segment(b[offset + 1], b[offset + 4..offset + 2 + segmentLength]))
  {
    var payloadOffset, payloadLength := offset + 4, segmentLength - 2;
    ghost var payload := b[offset + 4..offset + 2 + segmentLength];
    if b[offset + 1] != 0xe1 || payloadLength < 14 {
      return false;
    }
    var head := b[payloadOffset..payloadOffset + 6];
    ghost var rest := b[payloadOffset + 6..payloadOffset + 6 + (payloadLength - 6)];
    PayloadParts(b, payloadOffset, payloadLength, payload, head, rest);
    ExifSegment(b[offset + 1], payload, head, rest);
    if head != EXIF_HEADER {
      return false;
    }
    found := TiffContainsGps(b, payloadOffset + 6, payloadLength - 6);
  }

  lemma ExifSegment(marker: byte, payload: seq<byte>, head: seq<byte>, rest: seq<byte>)
    requires |payload| >= 14 && head == payload[..6] && rest == payload[6..]
    ensures SegmentHasGps(Segment(marker, payload)) <==> marker == 0xe1 && head == EXIF_HEADER && TiffHasGps(rest)
  {
  }

  lemma PayloadParts(b: seq<byte>, at: nat, length: nat, payload: seq<byte>, head: seq<byte>, rest: seq<byte>)
    requires 6 <= length && at + length <= |b| && payload == b[at..at + length]
    requires head == b[at..at + 6] && rest == b[at + 6..at + 6 + (length - 6)]
    ensures head == payload[..6] && rest == payload[6..]
  {
    assert forall k :: 0 <= k < 6 ==> payload[..6][k] == b[at + k];
    assert forall k :: 0 <= k < length - 6 ==> payload[6..][k] == b[at + 6 + k];
  }

  /** One turn of the JPEG walk. */
  method JpegTurn(b: seq<byte>, offset: nat) returns (step: Step)
    requires offset + 4 <= |b|
    ensures step == JpegStep(b, offset)
    ensures step.Skip? ==> offset < step.next <= |b|
  {
    var marker := b[offset + 1];
    if b[offset] != 0xff || marker == 0xda || marker == 0xd9 {
      return Stop;
    }
    var segmentLength := BigU16(b, offset + 2);
    if segmentLength < 2 || offset + 2 + segmentLength > |b| {
      return Stop;
    }
    var gps := SegmentContainsGps(b, offset, segmentLength);
    step := if gps then Found else Skip(offset + 2 + segmentLength);
  }

  lemma JpegEnds(b: seq<byte>, at: nat)
    requires at + 4 > |b|
    ensures !Finds(JpegWalk(b), at)
  {
    FindsNext(JpegWalk(b), at);
  }

  /** The walk's answer from `at` on, given what its turn there does. */
  lemma JpegGoesOn(b: seq<byte>, at: nat, step: Step)
    requires step == JpegStep(b, at)
    ensures Finds(JpegWalk(b), at) ==
              match step case Stop => false case Found => true case Skip(next) => Finds(JpegWalk(b), next)
  {
    FindsNext(JpegWalk(b), at);
  }

  method JpegContainsGps(b: seq<byte>) returns (found: bool)
    ensures found <==> JpegHasGps(b)
  {
    if |b| < 4 || b[0] != 0xff || b[1] != 0xd8 {
      return false;
    }
    var offset: nat := 2;
    while offset + 4 <= |b|
      invariant Finds(JpegWalk(b), 2) <==> Finds(JpegWalk(b), offset)
      decreases |b| - offset
    {
      var step := JpegTurn(b, offset);
      JpegGoesOn(b, offset, step);
      if !step.Skip? {
        return step.Found?;
      }
      offset := step.next;
    }
    JpegEnds(b, offset);
    return false;
  }

  /** The fields of a segment that sits in the file. */
  lemma SegmentFields(b: seq<byte>, at: nat, s: Segment)
    requires IsSegment(s) && Holds(b, at, SegmentBytes(s))
    ensures b[at] == 0xff && b[at + 1] == s.marker && BigU16(b, at + 2) == |s.payload| + 2
    ensures b[at + 4..at + 4 + |s.payload|] == s.payload
  {
    var head := [0xff, s.marker] + BigBytes(|s.payload| + 2);
    HoldsSplit(b, at, head, s.payload);
    forall k | 0 <= k < 4
      ensures b[at + k] == head[k]
    {
      assert b[at..at + 4][k] == head[k];
    }
  }

  /** A segment that sits in the file is read as itself. */
  lemma SegmentStep(b: seq<byte>, at: nat, s: Segment)
    requires IsSegment(s) && Holds(b, at, SegmentBytes(s))
    ensures JpegStep(b, at) == if SegmentHasGps(s) then Found else Skip(at + |SegmentBytes(s)|)
  {
    SegmentFields(b, at, s);
    assert Segment(b[at + 1], b[at + 4..at + 4 + |s.payload|]) == s;
  }

  lemma JpegReadsSegments(b: seq<byte>)
    ensures ReadsPieces(b, IsSegment, SegmentBytes, SegmentHasGps, JpegWalk(b))
  {
    forall at: nat, s | IsSegment(s) && Holds(b, at, SegmentBytes(s))
      ensures JpegWalk(b)(at) == if SegmentHasGps(s) then Found else Skip(at + |SegmentBytes(s)|)
    {
      SegmentStep(b, at, s);
    }
  }

  lemma EndStops(b: seq<byte>, at: nat, end: byte)
    requires Holds(b, at, [0xff, end]) && EndsHeader(end)
    ensures JpegStep(b, at) == Stop
  {
    assert b[at + 1] == b[at..at + 2][1];
  }

  lemma SegmentsWalk(b: seq<byte>, segments: seq<Segment>, body: seq<byte>, end: byte)
    requires EndsHeader(end) && (forall i :: 0 <= i < |segments| ==> IsSegment(segments[i]))
    requires body == Layout(segments, SegmentBytes) && Holds(b, 2, body + [0xff, end])
    ensures Finds(JpegWalk(b), 2) <==> Any(segments, SegmentHasGps)
  {
    HoldsSplit(b, 2, body, [0xff, end]);
    EndStops(b, 2 + |body|, end);
    JpegReadsSegments(b);
    PiecesWalk(b, 2, segments, IsSegment, SegmentBytes, SegmentHasGps, JpegWalk(b));
  }

  /** JPEG: for every well-formed segment list up to the scan data or the end marker, and any bytes after it, the
      answer is whether some Exif segment's first IFD has the GPS tag. */
  lemma JpegIsExact(segments: seq<Segment>, end: byte, tail: seq<byte>, b: seq<byte>)
    requires EndsHeader(end) && forall i :: 0 <= i < |segments| ==> IsSegment(segments[i])
    requires b == [0xff, 0xd8] + (Layout(segments, SegmentBytes) + [0xff, end] + tail)
    ensures JpegHasGps(b) <==> Any(segments, SegmentHasGps)
  {
    var body := Layout(segments, SegmentBytes);
    HoldsBetween(b, [0xff, 0xd8], body + [0xff, end], tail);
    StartsJpeg(b, body + [0xff, end] + tail);
    SegmentsWalk(b, segments, body, end);
  }

  lemma StartsJpeg(b: seq<byte>, rest: seq<byte>)
    requires b == [0xff, 0xd8] + rest && |rest| >= 2
    ensures JpegHasGps(b) <==> Finds(JpegWalk(b), 2)
  {
  }

  lemma Halves(low: nat, high: nat, base: nat)
    requires base == 0x100 || base == 0x1_0000
    requires low < base && high < base
    ensures (low + base * high) % base == low && (low + base * high) / base == high
  {
  }

  /** The marker, the length and the payload of the segment at an offset. */
  lemma SegmentAt(b: seq<byte>, at: nat, s: Segment)
    requires at + 4 <= |b| && b[at] == 0xff && b[at + 1] == s.marker && BigU16(b, at + 2) == |s.payload| + 2
    requires at + 4 + |s.payload| <= |b| && s.payload == b[at + 4..at + 4 + |s.payload|]
    ensures Holds(b, at, SegmentBytes(s))
  {
    BigBytesOf(b, at + 2, |s.payload| + 2);
    assert b[at..at + 2] == [0xff, s.marker];
    HoldsBoth(b, at, [0xff, s.marker], BigBytes(|s.payload| + 2));
    HoldsBoth(b, at, [0xff, s.marker] + BigBytes(|s.payload| + 2), s.payload);
  }

  lemma JpegStepReads(b: seq<byte>, at: nat)
    requires JpegStep(b, at) != Stop
    ensures exists s :: IsSegment(s) && Holds(b, at, SegmentBytes(s))
                        && JpegStep(b, at) == if SegmentHasGps(s) then Found else Skip(at + |SegmentBytes(s)|)
  {
    var s := Segment(b[at + 1], b[at + 4..at + 2 + BigU16(b, at + 2)]);
    assert IsSegment(s);
    SegmentAt(b, at, s);
    SegmentStep(b, at, s);
  }

  /** JPEG, any bytes at all: GPS data is found exactly when the file starts as a JPEG file does and complete segments,
      none of which starts the scan data or ends the image, lead to an Exif segment that has some. */
  lemma JpegIsReached(b: seq<byte>)
    ensures JpegHasGps(b) <==>
              && |b| >= 4 && b[0] == 0xff && b[1] == 0xd8
              && Reaches(b, 2, IsSegment, SegmentBytes, SegmentBytes, SegmentHasGps)
  {
    JpegReadsSegments(b);
    forall at: nat | JpegWalk(b)(at) != Stop
      ensures exists s :: IsSegment(s) && Holds(b, at, SegmentBytes(s))
                          && JpegStep(b, at) == if SegmentHasGps(s) then Found else Skip(at + |SegmentBytes(s)|)
    {
      JpegStepReads(b, at);
    }
    if |b| >= 4 {
      FindsIsReaches(b, 2, IsSegment, SegmentBytes, SegmentBytes, SegmentHasGps, JpegWalk(b));
    }
  }

  // ---- PNG -----------------------------------------------------------------------------------

  const EXIF_CHUNK: seq<byte> := [0x65, 0x58, 0x49, 0x66]
  const END_CHUNK: seq<byte> := [0x49, 0x45, 0x4e, 0x44]

  /** Section 5.3 of the PNG specification: a big-endian length, a type, the data and a checksum. */
  datatype Chunk = Chunk(kind: seq<byte>, data: seq<byte>, check: seq<byte>)

  predicate IsChunk(c: Chunk) {
    |c.kind| == 4 && |c.check| == 4 && |c.data| < 0x1_0000_0000 && c.kind != [0x49, 0x45, 0x4e, 0x44]
  }

  function ChunkBytes(c: Chunk): seq<byte> {
    BigBytes(|c.data| / 0x1_0000) + BigBytes(|c.data|) + c.kind + c.data + c.check
  }

  ghost predicate ChunkHasGps(c: Chunk) {
    c.kind == [0x65, 0x58, 0x49, 0x66] && TiffHasGps(c.data)
  }

  /** What the PNG walker does at an offset. */
  ghost function PngStep(b: seq<byte>, at: nat): Step {
    if at + 12 > |b| then Stop
    else
      var length, kind := BigU32(b, at), b[at + 4..at + 8];
      if at + 8 + length + 4 > |b| then Stop
      else if kind == EXIF_CHUNK && TiffHasGps(b[at + 8..at + 8 + length]) then Found
      else if kind == END_CHUNK then Stop
      else Skip(at + 8 + length + 4)
  }

  ghost function PngWalk(b: seq<byte>): nat -> Step {
    (at: nat) => PngStep(b, at)
  }

  ghost predicate PngHasGps(b: seq<byte>) {
    |b| >= 8 && b[1..4] == [0x50, 0x4e, 0x47] && Finds(PngWalk(b), 8)
  }

  /** One turn of the PNG walk. */
  method PngTurn(b: seq<byte>, offset: nat) returns (step: Step)
    requires offset + 12 <= |b|
    ensures step == PngStep(b, offset)
    ensures step.Skip? ==> offset < step.next <= |b|
  {
    var length, kind, dataOffset := BigU32(b, offset), b[offset + 4..offset + 8], offset + 8;
    if dataOffset + length + 4 > |b| {
      return Stop;
    }
    if kind == EXIF_CHUNK {
      var gps := TiffContainsGps(b, dataOffset, length);
      if gps {
        return Found;
      }
    }
    step := if kind == END_CHUNK then Stop else Skip(dataOffset + length + 4);
  }

  lemma PngEnds(b: seq<byte>, at: nat)
    requires at + 12 > |b|
    ensures !Finds(PngWalk(b), at)
  {
    FindsNext(PngWalk(b), at);
  }

  lemma PngGoesOn(b: seq<byte>, at: nat, step: Step)
    requires step == PngStep(b, at)
    ensures Finds(PngWalk(b), at) ==
              match step case Stop => false case Found => true case Skip(next) => Finds(PngWalk(b), next)
  {
    FindsNext(PngWalk(b), at);
  }

  method PngContainsGps(b: seq<byte>) returns (found: bool)
    ensures found <==> PngHasGps(b)
  {
    if |b| < 8 || b[1..4] != [0x50, 0x4e, 0x47] {
      return false;
    }
    var offset: nat := 8;
    while offset + 12 <= |b|
      invariant Finds(PngWalk(b), 8) <==> Finds(PngWalk(b), offset)
      decreases |b| - offset
    {
      var step := PngTurn(b, offset);
      PngGoesOn(b, offset, step);
      if !step.Skip? {
        return step.Found?;
      }
      offset := step.next;
    }
    PngEnds(b, offset);
    return false;
  }

  lemma HoldsAt(b: seq<byte>, at: nat, part: seq<byte>, i: nat)
    requires Holds(b, at, part) && i < |part|
    ensures b[at + i] == part[i]
  {
    assert b[at..at + |part|][i] == part[i];
  }

  lemma HoldsBigU32(b: seq<byte>, at: nat, v: nat)
    requires Holds(b, at, BigBytes(v / 0x1_0000)) && Holds(b, at + 2, BigBytes(v)) && v < 0x1_0000_0000
    ensures BigU32(b, at) == v
  {
    HoldsBigU16(b, at, v / 0x1_0000);
    HoldsBigU16(b, at + 2, v);
  }

  lemma TwoBytes(v: nat)
    ensures v % 0x1_0000 == 0x100 * (v / 0x100 % 0x100) + v % 0x100
  {
    var q, r := v / 0x100, v % 0x100;
    assert v == 0x1_0000 * (q / 0x100) + (0x100 * (q % 0x100) + r);
  }

  lemma HoldsBigU16(b: seq<byte>, at: nat, v: nat)
    requires Holds(b, at, BigBytes(v))
    ensures BigU16(b, at) == v % 0x1_0000
  {
    HoldsAt(b, at, BigBytes(v), 0);
    HoldsAt(b, at, BigBytes(v), 1);
    TwoBytes(v);
  }

  /** The fields of a chunk that sits in the file. */
  lemma ChunkFields(b: seq<byte>, at: nat, c: Chunk)
    requires |c.kind| == 4 && |c.data| < 0x1_0000_0000 && Holds(b, at, ChunkBytes(c))
    ensures BigU32(b, at) == |c.data| && b[at + 4..at + 8] == c.kind && b[at + 8..at + 8 + |c.data|] == c.data
  {
    var size := BigBytes(|c.data| / 0x1_0000) + BigBytes(|c.data|);
    HoldsSplit(b, at, size + c.kind + c.data, c.check);
    HoldsSplit(b, at, size + c.kind, c.data);
    HoldsSplit(b, at, size, c.kind);
    HoldsSplit(b, at, BigBytes(|c.data| / 0x1_0000), BigBytes(|c.data|));
    HoldsBigU32(b, at, |c.data|);
  }

  lemma ChunkStep(b: seq<byte>, at: nat, c: Chunk)
    requires IsChunk(c) && Holds(b, at, ChunkBytes(c))
    ensures PngStep(b, at) == if ChunkHasGps(c) then Found else Skip(at + |ChunkBytes(c)|)
  {
    ChunkFields(b, at, c);
  }

  lemma PngReadsChunks(b: seq<byte>)
    ensures ReadsPieces(b, IsChunk, ChunkBytes, ChunkHasGps, PngWalk(b))
  {
    forall at: nat, c | IsChunk(c) && Holds(b, at, ChunkBytes(c))
      ensures PngWalk(b)(at) == if ChunkHasGps(c) then Found else Skip(at + |ChunkBytes(c)|)
    {
      ChunkStep(b, at, c);
    }
  }

  lemma EndChunkStops(b: seq<byte>, at: nat, check: seq<byte>)
    requires |check| == 4 && Holds(b, at, ChunkBytes(Chunk(END_CHUNK, [], check)))
    ensures PngStep(b, at) == Stop
  {
    ChunkFields(b, at, Chunk(END_CHUNK, [], check));
    assert END_CHUNK[0] != EXIF_CHUNK[0];
  }

  /** Any walk that reads chunks finds exactly whether a laid-out chunk has GPS data. */
  lemma ReadChunksWalk(b: seq<byte>, chunks: seq<Chunk>, walk: nat -> Step)
    requires forall i :: 0 <= i < |chunks| ==> IsChunk(chunks[i])
    requires ReadsPieces(b, IsChunk, ChunkBytes, ChunkHasGps, walk)
    requires Holds(b, 8, Layout(chunks, ChunkBytes)) && walk(8 + |Layout(chunks, ChunkBytes)|) == Stop
    ensures Finds(walk, 8) == Any(chunks, ChunkHasGps)
  {
    PiecesWalk(b, 8, chunks, IsChunk, ChunkBytes, ChunkHasGps, walk);
  }

  lemma ChunksWalk(b: seq<byte>, chunks: seq<Chunk>)
    requires forall i :: 0 <= i < |chunks| ==> IsChunk(chunks[i])
    requires Holds(b, 8, Layout(chunks, ChunkBytes)) && PngWalk(b)(8 + |Layout(chunks, ChunkBytes)|) == Stop
    ensures Finds(PngWalk(b), 8) == Any(chunks, ChunkHasGps)
  {
    PngReadsChunks(b);
    ReadChunksWalk(b, chunks, PngWalk(b));
  }

  /** PNG: for every well-formed chunk list up to the end chunk, and any bytes after it, the answer is whether the first
      IFD of some Exif chunk has the GPS tag. */
  lemma PngIsExact(signature: seq<byte>, chunks: seq<Chunk>, check: seq<byte>, tail: seq<byte>, b: seq<byte>)
    requires |signature| == 8 && signature[1..4] == [0x50, 0x4e, 0x47] && |check| == 4
    requires forall i :: 0 <= i < |chunks| ==> IsChunk(chunks[i])
    requires b == signature + (Layout(chunks, ChunkBytes) + ChunkBytes(Chunk(END_CHUNK, [], check)) + tail)
    ensures PngHasGps(b) <==> Any(chunks, ChunkHasGps)
  {
    var body, end := Layout(chunks, ChunkBytes), ChunkBytes(Chunk(END_CHUNK, [], check));
    HoldsBetween(b, signature, body + end, tail);
    HoldsSplit(b, 8, body, end);
    EndChunkStops(b, 8 + |body|, check);
    ChunksWalk(b, chunks);
    SliceOfHead(b, signature, body + end + tail, 1, 4);
  }

  lemma SizeOfChunk(b: seq<byte>, at: nat)
    requires at + 4 <= |b|
    ensures var v := BigU32(b, at); Holds(b, at, BigBytes(v / 0x1_0000) + BigBytes(v))
  {
    var v := BigU32(b, at);
    var high, low := BigU16(b, at), BigU16(b, at + 2);
    assert v == 0x1_0000 * high + low && v / 0x1_0000 == high;
    BigBytesOf(b, at, high);
    BigBytesOf(b, at + 2, v);
    HoldsBoth(b, at, BigBytes(v / 0x1_0000), BigBytes(v));
  }

  lemma BigBytesOf(b: seq<byte>, at: nat, v: nat)
    requires at + 2 <= |b| && BigU16(b, at) == v % 0x1_0000
    ensures Holds(b, at, BigBytes(v))
  {
    TwoBytes(v);
    assert b[at..at + 2] == [b[at], b[at + 1]];
  }

  /** The length, the type, the data and the checksum of the chunk at an offset. */
  lemma ChunkAt(b: seq<byte>, at: nat, c: Chunk)
    requires at + 12 + |c.data| <= |b| && BigU32(b, at) == |c.data| && c.kind == b[at + 4..at + 8]
    requires c.data == b[at + 8..at + 8 + |c.data|] && c.check == b[at + 8 + |c.data|..at + 12 + |c.data|]
    ensures Holds(b, at, ChunkBytes(c))
  {
    SizeOfChunk(b, at);
    var size := BigBytes(|c.data| / 0x1_0000) + BigBytes(|c.data|);
    HoldsBoth(b, at, size, c.kind);
    HoldsBoth(b, at, size + c.kind, c.data);
    HoldsBoth(b, at, size + c.kind + c.data, c.check);
  }

  lemma PngStepReads(b: seq<byte>, at: nat)
    requires PngStep(b, at) != Stop
    ensures exists c :: IsChunk(c) && Holds(b, at, ChunkBytes(c))
                        && PngStep(b, at) == if ChunkHasGps(c) then Found else Skip(at + |ChunkBytes(c)|)
  {
    var length := BigU32(b, at);
    var dataEnd := at + 8 + length;
    var c := Chunk(b[at + 4..at + 8], b[at + 8..dataEnd], b[dataEnd..dataEnd + 4]);
    assert EXIF_CHUNK[0] != END_CHUNK[0];
    ChunkAt(b, at, c);
    ChunkStep(b, at, c);
  }

  /** PNG, any bytes at all: GPS data is found exactly when the file is marked as a PNG file and complete chunks before
      the end chunk lead to an Exif chunk that has some. */
  lemma PngIsReached(b: seq<byte>)
    ensures PngHasGps(b) <==>
              && |b| >= 8 && b[1] == 0x50 && b[2] == 0x4e && b[3] == 0x47
              && Reaches(b, 8, IsChunk, ChunkBytes, ChunkBytes, ChunkHasGps)
  {
    PngReadsChunks(b);
    forall at: nat | PngWalk(b)(at) != Stop
      ensures exists c :: IsChunk(c) && Holds(b, at, ChunkBytes(c))
                          && PngStep(b, at) == if ChunkHasGps(c) then Found else Skip(at + |ChunkBytes(c)|)
    {
      PngStepReads(b, at);
    }
    if |b| >= 8 {
      assert b[1..4] == [b[1], b[2], b[3]];
      FindsIsReaches(b, 8, IsChunk, ChunkBytes, ChunkBytes, ChunkHasGps, PngWalk(b));
    }
  }

  // ---- WebP ----------------------------------------------------------------------------------

  const RIFF_EXIF: seq<byte> := [0x45, 0x58, 0x49, 0x46]

  /** Section 2.3 of RFC 9649: a type, a little-endian length, the data, and a padding byte after odd data. */
  datatype RiffChunk = RiffChunk(kind: seq<byte>, data: seq<byte>, padding: seq<byte>)

  predicate IsRiffChunk(c: RiffChunk) {
    |c.kind| == 4 && |c.data| < 0x1_0000_0000 && |c.padding| == |c.data| % 2
  }

  function SizeBytes(size: nat): seq<byte> {
    if size < 0x1_0000_0000 then PutU32(size) else []
  }

  function RiffBytes(c: RiffChunk): seq<byte> {
    c.kind + SizeBytes(|c.data|) + c.data + c.padding
  }

  ghost predicate RiffHasGps(c: RiffChunk) {
    c.kind == [0x45, 0x58, 0x49, 0x46] && TiffHasGps(c.data)
  }

  /** What the WebP walker does at an offset. */
  ghost function WebpStep(b: seq<byte>, at: nat): Step {
    if at + 8 > |b| then Stop
    else
      var kind, length := b[at..at + 4], U32(b, at + 4);
      if at + 8 + length > |b| then Stop
      else if kind == RIFF_EXIF && TiffHasGps(b[at + 8..at + 8 + length]) then Found
      else Skip(at + 8 + length + length % 2)
  }

  ghost function WebpWalk(b: seq<byte>): nat -> Step {
    (at: nat) => WebpStep(b, at)
  }

  ghost predicate WebpHasGps(b: seq<byte>) {
    |b| >= 12 && b[..4] == [0x52, 0x49, 0x46, 0x46] && b[8..12] == [0x57, 0x45, 0x42, 0x50] && Finds(WebpWalk(b), 12)
  }

  /** One turn of the WebP walk. */
  method WebpTurn(b: seq<byte>, offset: nat) returns (step: Step)
    requires offset + 8 <= |b|
    ensures step == WebpStep(b, offset)
    ensures step.Skip? ==> offset < step.next <= |b| + 1
  {
    var kind, length, dataOffset := b[offset..offset + 4], U32(b, offset + 4), offset + 8;
    if dataOffset + length > |b| {
      return Stop;
    }
    if kind == RIFF_EXIF {
      var gps := TiffContainsGps(b, dataOffset, length);
      if gps {
        return Found;
      }
    }
    step := Skip(dataOffset + length + length % 2);
  }

  lemma WebpEnds(b: seq<byte>, at: nat)
    requires at + 8 > |b|
    ensures !Finds(WebpWalk(b), at) && WebpWalk(b)(at) == Stop
  {
    FindsNext(WebpWalk(b), at);
  }

  lemma WebpGoesOn(b: seq<byte>, at: nat, step: Step)
    requires step == WebpStep(b, at)
    ensures Finds(WebpWalk(b), at) ==
              match step case Stop => false case Found => true case Skip(next) => Finds(WebpWalk(b), next)
  {
    FindsNext(WebpWalk(b), at);
  }

  method WebpContainsGps(b: seq<byte>) returns (found: bool)
    ensures found <==> WebpHasGps(b)
  {
    if |b| < 12 || b[..4] != [0x52, 0x49, 0x46, 0x46] || b[8..12] != [0x57, 0x45, 0x42, 0x50] {
      return false;
    }
    var offset: nat := 12;
    while offset + 8 <= |b|
      invariant Finds(WebpWalk(b), 12) <==> Finds(WebpWalk(b), offset)
      decreases |b| + 1 - offset
    {
      var step := WebpTurn(b, offset);
      WebpGoesOn(b, offset, step);
      if !step.Skip? {
        return step.Found?;
      }
      offset := step.next;
    }
    WebpEnds(b, offset);
    return false;
  }

  /** The fields of a chunk that sits in the file. */
  lemma RiffFields(b: seq<byte>, at: nat, c: RiffChunk)
    requires IsRiffChunk(c) && Holds(b, at, RiffBytes(c))
    ensures U32(b, at + 4) == |c.data| && b[at..at + 4] == c.kind && b[at + 8..at + 8 + |c.data|] == c.data
    ensures |RiffBytes(c)| == 8 + |c.data| + |c.data| % 2
  {
    var size := PutU32(|c.data|);
    HoldsSplit(b, at, c.kind + size + c.data, c.padding);
    HoldsSplit(b, at, c.kind + size, c.data);
    HoldsSplit(b, at, c.kind, size);
    HoldsU32(b, at + 4, size, 0);
  }

  lemma RiffStep(b: seq<byte>, at: nat, c: RiffChunk)
    requires IsRiffChunk(c) && Holds(b, at, RiffBytes(c))
    ensures WebpStep(b, at) == if RiffHasGps(c) then Found else Skip(at + |RiffBytes(c)|)
  {
    RiffFields(b, at, c);
  }

  lemma WebpReadsChunks(b: seq<byte>)
    ensures ReadsPieces(b, IsRiffChunk, RiffBytes, RiffHasGps, WebpWalk(b))
  {
    forall at: nat, c | IsRiffChunk(c) && Holds(b, at, RiffBytes(c))
      ensures WebpWalk(b)(at) == if RiffHasGps(c) then Found else Skip(at + |RiffBytes(c)|)
    {
      RiffStep(b, at, c);
    }
  }

  lemma RiffChunksWalk(b: seq<byte>, chunks: seq<RiffChunk>, body: seq<byte>)
    requires (forall i :: 0 <= i < |chunks| ==> IsRiffChunk(chunks[i])) && body == Layout(chunks, RiffBytes)
    requires Holds(b, 12, body) && 12 + |body| + 8 > |b|
    ensures Finds(WebpWalk(b), 12) <==> Any(chunks, RiffHasGps)
  {
    WebpEnds(b, 12 + |body|);
    WebpReadsChunks(b);
    PiecesWalk(b, 12, chunks, IsRiffChunk, RiffBytes, RiffHasGps, WebpWalk(b));
  }

  /** WebP: for every well-formed chunk list to the end of the file, give or take less than a chunk
      header, the answer is whether the first IFD of some Exif chunk has the GPS tag. */
  lemma WebpIsExact(head: seq<byte>, chunks: seq<RiffChunk>, tail: seq<byte>, b: seq<byte>)
    requires |head| == 12 && head[..4] == [0x52, 0x49, 0x46, 0x46] && head[8..12] == [0x57, 0x45, 0x42, 0x50]
    requires |tail| < 8 && forall i :: 0 <= i < |chunks| ==> IsRiffChunk(chunks[i])
    requires b == head + (Layout(chunks, RiffBytes) + tail)
    ensures WebpHasGps(b) <==> Any(chunks, RiffHasGps)
  {
    var body := Layout(chunks, RiffBytes);
    HoldsBetween(b, head, body, tail);
    RiffChunksWalk(b, chunks, body);
    SliceOfHead(b, head, body + tail, 0, 4);
    SliceOfHead(b, head, body + tail, 8, 12);
  }

  /** A chunk without its padding byte. */
  function RiffCore(c: RiffChunk): seq<byte> {
    c.kind + SizeBytes(|c.data|) + c.data
  }

  lemma RiffCoreFields(b: seq<byte>, at: nat, c: RiffChunk)
    requires IsRiffChunk(c) && Holds(b, at, RiffCore(c))
    ensures at + 8 + |c.data| <= |b|
    ensures U32(b, at + 4) == |c.data| && b[at..at + 4] == c.kind && b[at + 8..at + 8 + |c.data|] == c.data
  {
    var size := PutU32(|c.data|);
    HoldsSplit(b, at, c.kind + size, c.data);
    HoldsSplit(b, at, c.kind, size);
    HoldsU32(b, at + 4, size, 0);
  }

  lemma PutsBack(b: seq<byte>, at: nat)
    requires at + 2 <= |b|
    ensures PutU16(U16(b, at)) == b[at..at + 2]
  {
    Halves(b[at] as nat, b[at + 1] as nat, 0x100);
  }

  lemma SizeOfRiff(b: seq<byte>, at: nat)
    requires at + 4 <= |b|
    ensures Holds(b, at, SizeBytes(U32(b, at)))
  {
    Halves(U16(b, at), U16(b, at + 2), 0x1_0000);
    PutsBack(b, at);
    PutsBack(b, at + 2);
    assert b[at..at + 4] == b[at..at + 2] + b[at + 2..at + 4];
  }

  /** The type, the size and the data of the chunk at an offset. */
  lemma RiffAt(b: seq<byte>, at: nat, c: RiffChunk)
    requires at + 8 <= |b| && at + 8 + U32(b, at + 4) <= |b|
    requires c.kind == b[at..at + 4] && c.data == b[at + 8..at + 8 + U32(b, at + 4)]
    ensures Holds(b, at, RiffCore(c))
  {
    SizeOfRiff(b, at + 4);
    HoldsBoth(b, at, c.kind, SizeBytes(|c.data|));
    HoldsBoth(b, at, c.kind + SizeBytes(|c.data|), c.data);
  }

  lemma WebpFoundReads(b: seq<byte>, at: nat)
    requires WebpStep(b, at) == Found
    ensures exists c :: IsRiffChunk(c) && RiffHasGps(c) && Holds(b, at, RiffCore(c))
  {
    var length := U32(b, at + 4);
    var c := RiffChunk(b[at..at + 4], b[at + 8..at + 8 + length], if length % 2 == 0 then [] else [0]);
    RiffAt(b, at, c);
  }

  lemma WebpSkipReads(b: seq<byte>, at: nat, next: nat)
    requires WebpStep(b, at) == Skip(next) && next + 8 <= |b|
    ensures exists c :: IsRiffChunk(c) && Holds(b, at, RiffBytes(c)) && next == at + |RiffBytes(c)|
  {
    var length := U32(b, at + 4);
    var c := RiffChunk(b[at..at + 4], b[at + 8..at + 8 + length], b[at + 8 + length..next]);
    RiffAt(b, at, c);
    HoldsBoth(b, at, RiffCore(c), c.padding);
    RiffFields(b, at, c);
  }

  lemma CoreIsFound(b: seq<byte>, at: nat, c: RiffChunk)
    requires IsRiffChunk(c) && RiffHasGps(c) && Holds(b, at, RiffCore(c))
    ensures WebpStep(b, at) == Found
  {
    RiffCoreFields(b, at, c);
    assert b[at + 8..at + 8 + U32(b, at + 4)] == c.data;
  }

  lemma WebpReports(b: seq<byte>)
    ensures Reports(b, IsRiffChunk, RiffCore, RiffHasGps, WebpWalk(b))
  {
    forall at: nat, c | IsRiffChunk(c) && RiffHasGps(c) && Holds(b, at, RiffCore(c))
      ensures WebpWalk(b)(at) == Found
    {
      CoreIsFound(b, at, c);
    }
  }

  lemma WebpOnlyPieces(b: seq<byte>)
    ensures OnlyPieces(b, IsRiffChunk, RiffBytes, RiffCore, RiffHasGps, WebpWalk(b))
  {
    forall at: nat
      ensures match WebpWalk(b)(at)
              case Stop => true
              case Found => exists c :: IsRiffChunk(c) && RiffHasGps(c) && Holds(b, at, RiffCore(c))
              case Skip(next) =>
                WebpWalk(b)(next) == Stop
                || exists c :: IsRiffChunk(c) && Holds(b, at, RiffBytes(c)) && next == at + |RiffBytes(c)|
    {
      match WebpStep(b, at) {
        case Stop =>
        case Found => WebpFoundReads(b, at);
        case Skip(next) =>
          if next + 8 <= |b| {
            WebpSkipReads(b, at, next);
          }
      }
    }
  }

  /** WebP, any bytes at all: GPS data is found exactly when the file is marked as a WebP file and complete chunks
      lead to an Exif chunk that has some, complete up to its padding. */
  lemma WebpIsReached(b: seq<byte>)
    ensures WebpHasGps(b) <==>
              && |b| >= 12 && Holds(b, 0, [0x52, 0x49, 0x46, 0x46]) && Holds(b, 8, [0x57, 0x45, 0x42, 0x50])
              && Reaches(b, 12, IsRiffChunk, RiffBytes, RiffCore, RiffHasGps)
  {
    WebpReadsChunks(b);
    WebpReports(b);
    WebpOnlyPieces(b);
    if |b| >= 12 {
      FindsIsReaches(b, 12, IsRiffChunk, RiffBytes, RiffCore, RiffHasGps, WebpWalk(b));
    }
  }

  // ---- Laid-out TIFF blocks ------------------------------------------------------------------

  function Put16(o: ByteOrder, v: nat): (b: seq<byte>)
    requires v < 0x1_0000
    ensures |b| == 2
  {
    match o
    case Little => PutU16(v)
    case Big => BigBytes(v)
  }

  function Put32(o: ByteOrder, v: nat): (b: seq<byte>)
    requires v < 0x1_0000_0000
    ensures |b| == 4
  {
    match o
    case Little => PutU32(v)
    case Big => BigBytes(v / 0x1_0000) + BigBytes(v)
  }

  lemma Put16Reads(o: ByteOrder, b: seq<byte>, at: nat, v: nat)
    requires v < 0x1_0000 && Holds(b, at, Put16(o, v))
    ensures Word16(o, b, at) == v
  {
    if o == Little {
      HoldsU16(b, at, PutU16(v), 0);
    } else {
      HoldsBigU16(b, at, v);
    }
  }

  lemma Put32Reads(o: ByteOrder, b: seq<byte>, at: nat, v: nat)
    requires v < 0x1_0000_0000 && Holds(b, at, Put32(o, v))
    ensures Word32(o, b, at) == v
  {
    if o == Little {
      HoldsU32(b, at, PutU32(v), 0);
    } else {
      HoldsSplit(b, at, BigBytes(v / 0x1_0000), BigBytes(v));
      HoldsBigU32(b, at, v);
    }
  }

  /** An IFD entry: its tag and the ten bytes of type, count and value. */
  datatype TiffEntry = TiffEntry(tag: nat, value: seq<byte>)

  predicate IsEntry(e: TiffEntry) {
    e.tag < 0x1_0000 && |e.value| == 10
  }

  function EntryBytes(o: ByteOrder, e: TiffEntry): seq<byte>
    requires IsEntry(e)
  {
    Put16(o, e.tag) + e.value
  }

  function EntriesBytes(o: ByteOrder, entries: seq<TiffEntry>): (b: seq<byte>)
    requires forall i :: 0 <= i < |entries| ==> IsEntry(entries[i])
    ensures |b| == 12 * |entries|
  {
    if entries == [] then []
    else
      assert forall i :: 0 <= i < |entries[1..]| ==> entries[1..][i] == entries[i + 1];
      EntryBytes(o, entries[0]) + EntriesBytes(o, entries[1..])
  }

  /** The tag of entry `i` sits 12 bytes per entry after the first. */
  lemma {:induction false} EntryTag(o: ByteOrder, b: seq<byte>, at: nat, entries: seq<TiffEntry>, i: nat)
    requires (forall j :: 0 <= j < |entries| ==> IsEntry(entries[j])) && i < |entries|
             && Holds(b, at, EntriesBytes(o, entries))
    ensures at + 12 * i + 12 <= |b| && Word16(o, b, at + 12 * i) == entries[i].tag
    decreases |entries|
  {
    assert forall j :: 0 <= j < |entries[1..]| ==> entries[1..][j] == entries[j + 1];
    HoldsSplit(b, at, EntryBytes(o, entries[0]), EntriesBytes(o, entries[1..]));
    if i == 0 {
      HoldsSplit(b, at, Put16(o, entries[0].tag), entries[0].value);
      Put16Reads(o, b, at, entries[0].tag);
    } else {
      EntryTag(o, b, at + 12, entries[1..], i - 1);
    }
  }

  /** A TIFF header in byte order `o` and its first IFD with these entries at `ifd`; anything may lie elsewhere. */
  ghost predicate LaysTiff(o: ByteOrder, t: seq<byte>, ifd: nat, entries: seq<TiffEntry>) {
    && |entries| < 0x1_0000 && ifd < 0x1_0000_0000 && (forall i :: 0 <= i < |entries| ==> IsEntry(entries[i]))
    && |t| >= 8 && t[..2] == Mark(o) && Holds(t, 2, Put16(o, 42)) && Holds(t, 4, Put32(o, ifd))
    && Holds(t, ifd, Put16(o, |entries|)) && Holds(t, ifd + 2, EntriesBytes(o, entries))
  }

  lemma TiffFields(o: ByteOrder, t: seq<byte>, ifd: nat, entries: seq<TiffEntry>)
    requires LaysTiff(o, t, ifd, entries)
    ensures IsTiff(o, t) && Word32(o, t, 4) == ifd && Word16(o, t, ifd) == |entries|
  {
    Put16Reads(o, t, 2, 42);
    Put32Reads(o, t, 4, ifd);
    Put16Reads(o, t, ifd, |entries|);
  }

  lemma TagIsRead(o: ByteOrder, t: seq<byte>, at: nat, tag: nat)
    requires at + 12 <= |t| && Word16(o, t, at) == tag
    ensures IsTagged(o, t, at, GPS_TAG) == (tag == GPS_TAG)
  {
  }

  ghost predicate GpsListed(entries: seq<TiffEntry>) {
    exists i :: 0 <= i < |entries| && entries[i].tag == GPS_TAG
  }

  lemma TagPlace(o: ByteOrder, t: seq<byte>, i: nat, at: nat)
    requires IsTiff(o, t) && at == Word32(o, t, 4) + 2 + 12 * i
    ensures HasTagAt(o, t, i, GPS_TAG) == IsTagged(o, t, at, GPS_TAG)
  {
  }

  lemma ListedIsTagged(o: ByteOrder, t: seq<byte>, first: nat, entries: seq<TiffEntry>, i: nat, at: nat)
    requires forall j :: 0 <= j < |entries| ==> IsEntry(entries[j])
    requires Holds(t, first, EntriesBytes(o, entries)) && i < |entries| && at == first + 12 * i
    ensures IsTagged(o, t, at, GPS_TAG) == (entries[i].tag == GPS_TAG)
  {
    EntryTag(o, t, first, entries, i);
    TagIsRead(o, t, at, entries[i].tag);
  }

  /** The tags of the one byte order a block can have. */
  lemma TiffGpsIn(o: ByteOrder, t: seq<byte>, count: nat)
    requires IsTiff(o, t) && Word16(o, t, Word32(o, t, 4)) == count
    ensures TiffHasGps(t) <==> exists i: nat :: i < count && HasTagAt(o, t, i, GPS_TAG)
  {
    OneByteOrder(t, o);
  }

  /** In either byte order and wherever the IFD lies, the block has GPS data exactly when an entry has the tag. */
  lemma TiffIsExact(o: ByteOrder, t: seq<byte>, ifd: nat, entries: seq<TiffEntry>)
    requires LaysTiff(o, t, ifd, entries)
    ensures TiffHasGps(t) <==> GpsListed(entries)
  {
    TiffFields(o, t, ifd, entries);
    TiffGpsIn(o, t, |entries|);
    forall i: nat | i < |entries|
      ensures HasTagAt(o, t, i, GPS_TAG) == (entries[i].tag == GPS_TAG)
    {
      var at := ifd + 2 + 12 * i;
      calc {
        HasTagAt(o, t, i, GPS_TAG);
      ==  { TagPlace(o, t, i, at); }
        IsTagged(o, t, at, GPS_TAG);
      ==  { ListedIsTagged(o, t, ifd + 2, entries, i, at); }
        entries[i].tag == GPS_TAG;
      }
    }
    FoundAsListed(o, t, entries);
  }

  lemma FoundAsListed(o: ByteOrder, t: seq<byte>, entries: seq<TiffEntry>)
    requires forall i: nat :: i < |entries| ==> HasTagAt(o, t, i, GPS_TAG) == (entries[i].tag == GPS_TAG)
    ensures (exists i: nat :: i < |entries| && HasTagAt(o, t, i, GPS_TAG)) <==> GpsListed(entries)
  {
    if i :| 0 <= i < |entries| && entries[i].tag == GPS_TAG {
      assert HasTagAt(o, t, i, GPS_TAG);
    }
  }

  // ---- Dispatch ------------------------------------------------------------------------------

  datatype ContentType = Jpeg | Png | Webp | OtherType

  method ContainsExifGps(contentType: ContentType, b: seq<byte>) returns (found: bool)
    ensures found <==> match contentType
                       case Jpeg => JpegHasGps(b)
                       case Png => PngHasGps(b)
                       case Webp => WebpHasGps(b)
                       case OtherType => false
  {
    match contentType {
      case Jpeg => found := JpegContainsGps(b);
      case Png => found := PngContainsGps(b);
      case Webp => found := WebpContainsGps(b);
      case OtherType => found := false;
    }
  }
}
