/** Bytes, and the big-endian form of the numbers stored on pages. */
module Bytes {
  type Byte = x: int | 0 <= x < 256

  type U16 = x: int | 0 <= x < 0x1_0000
  type U32 = x: int | 0 <= x < 0x1_0000_0000
  type I32 = x: int | -0x8000_0000 <= x < 0x8000_0000

  function U16Bytes(n: U16): (b: seq<Byte>)
    ensures |b| == 2
  {
    [n / 256, n % 256]
  }

  function U16From(b: seq<Byte>): U16
    requires |b| == 2
  {
    256 * (b[0] as int) + b[1]
  }

  function U32Bytes(n: U32): (b: seq<Byte>)
    ensures |b| == 4
  {
    U16Bytes(n / 0x1_0000) + U16Bytes(n % 0x1_0000)
  }

  function U32From(b: seq<Byte>): U32
    requires |b| == 4
  {
    0x1_0000 * (U16From(b[..2]) as int) + U16From(b[2..])
  }

  /** Two's complement. */
  function I32Bytes(n: I32): (b: seq<Byte>)
    ensures |b| == 4
  {
    U32Bytes(if n < 0 then (n as int) + 0x1_0000_0000 else n)
  }

  function I32From(b: seq<Byte>): I32
    requires |b| == 4
  {
    var u := U32From(b);
    if u < 0x8000_0000 then u else u - 0x1_0000_0000
  }

  lemma U16RoundTrip(n: U16)
    ensures U16From(U16Bytes(n)) == n
  {
  }

  lemma U16BytesUnique(b: seq<Byte>)
    requires |b| == 2
    ensures U16Bytes(U16From(b)) == b
  {
  }

  lemma U32RoundTrip(n: U32)
    ensures U32From(U32Bytes(n)) == n
  {
    var hi, lo := U16Bytes(n / 0x1_0000), U16Bytes(n % 0x1_0000);
    assert (hi + lo)[..2] == hi && (hi + lo)[2..] == lo;
    U16RoundTrip(n / 0x1_0000);
    U16RoundTrip(n % 0x1_0000);
  }

  lemma U32BytesUnique(b: seq<Byte>)
    requires |b| == 4
    ensures U32Bytes(U32From(b)) == b
  {
    U16BytesUnique(b[..2]);
    U16BytesUnique(b[2..]);
    assert b == b[..2] + b[2..];
  }

  /** A signed number and its four bytes determine each other. */
  lemma I32RoundTrip(n: I32)
    ensures I32From(I32Bytes(n)) == n
  {
    U32RoundTrip(if n < 0 then n + 0x1_0000_0000 else n);
  }

  lemma I32BytesUnique(b: seq<Byte>)
    requires |b| == 4
    ensures I32Bytes(I32From(b)) == b
  {
    U32BytesUnique(b);
  }

  /** The number in four bytes from a position on, the highest byte first. */
  function Word32(b: seq<Byte>, at: nat): int
    requires at + 4 <= |b|
  {
    0x100_0000 * (b[at] as int) + 0x1_0000 * (b[at + 1] as int) + 0x100 * (b[at + 2] as int) + (b[at + 3] as int)
  }

  /** Two bytes from a position on are a number, the higher byte first. */
  ghost predicate Holds16(b: seq<Byte>, at: nat, n: int) {
    at + 2 <= |b| && n == 0x100 * (b[at] as int) + (b[at + 1] as int)
  }

  /** Four bytes from a position on are a signed number. */
  ghost predicate Holds32(b: seq<Byte>, at: nat, n: int) {
    at + 4 <= |b| && (if n < 0 then n + 0x1_0000_0000 else n) == Word32(b, at)
  }

  lemma U16BytesHold(n: U16)
    ensures Holds16(U16Bytes(n), 0, n)
  {
  }

  lemma U32BytesHold(n: U32)
    ensures Word32(U32Bytes(n), 0) == n
  {
    U16BytesHold(n / 0x1_0000);
    U16BytesHold(n % 0x1_0000);
    assert n == 0x1_0000 * (n / 0x1_0000) + n % 0x1_0000;
  }

  lemma I32BytesHold(n: I32)
    ensures Holds32(I32Bytes(n), 0, n)
  {
    U32BytesHold(if n < 0 then n + 0x1_0000_0000 else n);
  }

  lemma I32FromHolds(b: seq<Byte>)
    requires |b| == 4
    ensures Holds32(b, 0, I32From(b))
  {
    I32BytesUnique(b);
    I32BytesHold(I32From(b));
  }

  lemma U16FromHolds(b: seq<Byte>)
    requires |b| == 2
    ensures Holds16(b, 0, U16From(b))
  {
  }

  /** What some bytes hold they hold wherever they stand. */
  lemma HeldThere(b: seq<Byte>, at: nat, part: seq<Byte>, n: int)
    requires at + |part| <= |b| && b[at..at + |part|] == part
    ensures Holds16(part, 0, n) ==> Holds16(b, at, n)
    ensures Holds32(part, 0, n) ==> Holds32(b, at, n)
  {
    assert forall k :: 0 <= k < |part| ==> b[at + k] == part[k];
  }

  /** Data with some bytes written over it. */
  function Overwrite(data: seq<Byte>, at: nat, bytes: seq<Byte>): (r: seq<Byte>)
    requires at + |bytes| <= |data|
    ensures |r| == |data|
    ensures forall p :: 0 <= p < |r| ==> r[p] == if at <= p < at + |bytes| then bytes[p - at] else data[p]
  {
    data[..at] + bytes + data[at + |bytes|..]
  }

  /** A piece of a rest is a piece of the whole. */
  lemma PieceOfRest(b: seq<Byte>, from: nat, at: nat, to: nat)
    requires at <= to && from + to <= |b|
    ensures b[from..][at..to] == b[from + at..from + to]
  {
  }

  method CopyInto(buf: array<Byte>, at: nat, bytes: seq<Byte>)
    requires at + |bytes| <= buf.Length
    modifies buf
    ensures buf[..] == Overwrite(old(buf[..]), at, bytes)
  {
    forall p | at <= p < at + |bytes| {
      buf[p] := bytes[p - at];
    }
  }
}
