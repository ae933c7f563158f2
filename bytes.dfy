/** Bytes and 32-bit words of the i386 address space, and the little-endian
    layout of a signed 32-bit displacement as it is stored in a near CALL/JMP. */
module Bytes {

  type byte = bv8

  /** A 32-bit address or a 32-bit two's-complement displacement: both wrap
      modulo 2^32, which is what the casts of addresses to int32 in the source do. */
  type word = bv32

  /** The `n` low-order bytes of `x`, least significant first. */
  function LeBytes(x: word, n: nat): (b: seq<byte>)
    ensures |b| == n
    decreases n
  {
    if n == 0 then [] else [(x & 0xFF) as byte] + LeBytes(x >> 8, n - 1)
  }

  /** The word whose little-endian layout is `b` (at most four bytes count). */
  function LeValue(b: seq<byte>): word
    decreases |b|
  {
    if |b| == 0 then 0 else (b[0] as word) | (LeValue(b[1..]) << 8)
  }

  /** The four bytes of `x`, least significant first. */
  function Le32(x: word): (b: seq<byte>)
    ensures |b| == 4
  {
    LeBytes(x, 4)
  }

  /** The word stored little-endian in the four bytes `b`. */
  function Le32Value(b: seq<byte>): word
    requires |b| == 4
  {
    LeValue(b)
  }

  /** `LeValue` of four bytes, written out. */
  function Nest(b0: byte, b1: byte, b2: byte, b3: byte): word {
    (b0 as word) | (((b1 as word) | (((b2 as word) | (((b3 as word) | 0) << 8)) << 8)) << 8)
  }

  lemma LeBytesUnfold(x: word, n: nat)
    requires n > 0
    ensures LeBytes(x, n) == [(x & 0xFF) as byte] + LeBytes(x >> 8, n - 1)
  {
  }

  lemma LeValueUnfold(b: seq<byte>)
    requires |b| > 0
    ensures LeValue(b) == (b[0] as word) | (LeValue(b[1..]) << 8)
  {
  }

  lemma LeValue4(b: seq<byte>)
    requires |b| == 4
    ensures LeValue(b) == Nest(b[0], b[1], b[2], b[3])
  {
    var b1, b2, b3 := b[1..], b[2..], b[3..];
    assert b1[1..] == b2 && b2[1..] == b3 && b3[1..] == [];
    LeValueUnfold(b);
    LeValueUnfold(b1);
    LeValueUnfold(b2);
    LeValueUnfold(b3);
  }

  lemma LeBytes4(x: word)
    ensures LeBytes(x, 4) == [(x & 0xFF) as byte, ((x >> 8) & 0xFF) as byte,
                              (((x >> 8) >> 8) & 0xFF) as byte, ((((x >> 8) >> 8) >> 8) & 0xFF) as byte]
  {
    LeBytesUnfold(x, 4);
    LeBytesUnfold(x >> 8, 3);
    LeBytesUnfold((x >> 8) >> 8, 2);
    LeBytesUnfold(((x >> 8) >> 8) >> 8, 1);
  }

  lemma NestOfBytes(x: word)
    ensures Nest((x & 0xFF) as byte, ((x >> 8) & 0xFF) as byte,
                 (((x >> 8) >> 8) & 0xFF) as byte, ((((x >> 8) >> 8) >> 8) & 0xFF) as byte) == x
  {
  }

  lemma BytesOfNest(b0: byte, b1: byte, b2: byte, b3: byte)
    ensures var v := Nest(b0, b1, b2, b3);
      && (v & 0xFF) as byte == b0 && ((v >> 8) & 0xFF) as byte == b1
      && (((v >> 8) >> 8) & 0xFF) as byte == b2 && ((((v >> 8) >> 8) >> 8) & 0xFF) as byte == b3
  {
  }

  /** Reading back what was written gives the original word. */
  lemma Le32RoundTrip(x: word)
    ensures Le32Value(Le32(x)) == x
  {
    LeBytes4(x);
    LeValue4(Le32(x));
    NestOfBytes(x);
  }

  /** Writing back what was read gives the original four bytes. */
  lemma Le32ValueRoundTrip(b: seq<byte>)
    requires |b| == 4
    ensures Le32(Le32Value(b)) == b
  {
    LeValue4(b);
    LeBytes4(LeValue(b));
    BytesOfNest(b[0], b[1], b[2], b[3]);
  }

  /** memcpy of `data` into `mem` at offset `at`. */
  method Store(mem: array<byte>, at: nat, data: seq<byte>)
    requires at + |data| <= mem.Length
    modifies mem
    ensures mem[..] == old(mem[..at]) + data + old(mem[at + |data|..])
  {
    forall i | 0 <= i < |data| {
      mem[at + i] := data[i];
    }
  }
}
