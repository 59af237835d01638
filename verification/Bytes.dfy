/** Little-endian and big-endian readers over immutable byte buffers, with the writers that invert them. */
module Bytes {

  newtype byte = x: int | 0 <= x < 256

  /** Two bytes, least significant first. */
  function U16(b: seq<byte>, at: nat): (v: nat)
    requires at + 2 <= |b|
    ensures v < 0x1_0000
  {
    b[at] as nat + 0x100 * b[at + 1] as nat
  }

  /** Four bytes, least significant first. */
  function U32(b: seq<byte>, at: nat): (v: nat)
    requires at + 4 <= |b|
    ensures v < 0x1_0000_0000
  {
    U16(b, at) + 0x1_0000 * U16(b, at + 2)
  }

  /** Two bytes, most significant first. */
  function BigU16(b: seq<byte>, at: nat): (v: nat)
    requires at + 2 <= |b|
    ensures v < 0x1_0000
  {
    0x100 * b[at] as nat + b[at + 1] as nat
  }

  /** Four bytes, most significant first. */
  function BigU32(b: seq<byte>, at: nat): (v: nat)
    requires at + 4 <= |b|
    ensures v < 0x1_0000_0000
  {
    0x1_0000 * BigU16(b, at) + BigU16(b, at + 2)
  }

  /** The byte orders, byte by byte. */
  lemma ByteOrders(b: seq<byte>, at: nat)
    requires at + 4 <= |b|
    ensures U16(b, at) == b[at] as nat + 256 * b[at + 1] as nat
    ensures U32(b, at) == b[at] as nat + 256 * b[at + 1] as nat + 65_536 * b[at + 2] as nat
                          + 16_777_216 * b[at + 3] as nat
    ensures BigU16(b, at) == 256 * b[at] as nat + b[at + 1] as nat
    ensures BigU32(b, at) == 16_777_216 * b[at] as nat + 65_536 * b[at + 1] as nat + 256 * b[at + 2] as nat
                             + b[at + 3] as nat
  {
  }

  /** Writes `v` so that `U16` reads it back. */
  function PutU16(v: nat): (b: seq<byte>)
    requires v < 0x1_0000
    ensures |b| == 2 && U16(b, 0) == v
  {
    [(v % 0x100) as byte, (v / 0x100) as byte]
  }

  /** Writes `v` so that `U32` reads it back. */
  function PutU32(v: nat): (b: seq<byte>)
    requires v < 0x1_0000_0000
    ensures |b| == 4 && U32(b, 0) == v
  {
    var low, high := PutU16(v % 0x1_0000), PutU16(v / 0x1_0000);
    var b := low + high;
    assert U16(b, 0) == U16(low, 0) && U16(b, 2) == U16(high, 0);
    b
  }

  /** `part` sits in `whole` at position `at`. */
  ghost predicate Holds(whole: seq<byte>, at: nat, part: seq<byte>)
  {
    at + |part| <= |whole| && whole[at..at + |part|] == part
  }

  lemma HoldsU16(whole: seq<byte>, at: nat, part: seq<byte>, off: nat)
    requires Holds(whole, at, part) && off + 2 <= |part|
    ensures U16(whole, at + off) == U16(part, off)
  {
    assert part[off] == whole[at + off] && part[off + 1] == whole[at + off + 1];
  }

  lemma HoldsU32(whole: seq<byte>, at: nat, part: seq<byte>, off: nat)
    requires Holds(whole, at, part) && off + 4 <= |part|
    ensures U32(whole, at + off) == U32(part, off)
  {
    HoldsU16(whole, at, part, off);
    HoldsU16(whole, at, part, off + 2);
  }

  lemma HoldsPart(whole: seq<byte>, at: nat, part: seq<byte>, off: nat, piece: seq<byte>)
    requires Holds(whole, at, part) && Holds(part, off, piece)
    ensures Holds(whole, at + off, piece)
  {
    forall k | 0 <= k < |piece|
      ensures whole[at + off + k] == piece[k]
    {
      assert part[off + k] == whole[at..at + |part|][off + k];
      assert part[off..off + |piece|][k] == piece[k];
    }
  }

  /** Two adjacent pieces. */
  lemma HoldsSplit(whole: seq<byte>, at: nat, p: seq<byte>, q: seq<byte>)
    requires Holds(whole, at, p + q)
    ensures Holds(whole, at, p) && Holds(whole, at + |p|, q)
  {
    assert Holds(p + q, 0, p) && Holds(p + q, |p|, q);
    HoldsPart(whole, at, p + q, 0, p);
    HoldsPart(whole, at, p + q, |p|, q);
  }
}
