/** The packets of the stream: a length field, the payload, and whatever fills the rest. */
module Packets {
  import opened Field
  import opened LinearAlgebra
  import opened Erasure
  import opened Interleave
  import opened Machine

  const PACKET_LENGTH := 1024
  const MIN_PACKET_LENGTH := 24
  const PAYLOAD_HEADER := 4

  /** The size of a packet buffer. */
  const MAX_PACKET_LENGTH := 4192

  const MAX_PACKETS_PER_BLOCK := 32

  /** What is written to the air, without the radio headers. */
  datatype Packet = Packet(sequenceNumber: nat, bytes: Vec)

  // ----- the length field, least significant byte first

  function Length32(b: Vec): (n: nat)
    requires |b| >= PAYLOAD_HEADER
    ensures n < UINT32
  {
    Index(b[0]) + 0x100 * Index(b[1]) + 0x1_0000 * Index(b[2]) + 0x100_0000 * Index(b[3])
  }

  function Encode32(n: nat): (b: Vec)
    requires n < UINT32
    ensures |b| == PAYLOAD_HEADER
  {
    var n1 := n / 0x100;
    var n2 := n1 / 0x100;
    [Byte(n % 0x100), Byte(n1 % 0x100), Byte(n2 % 0x100), Byte(n2 / 0x100)]
  }

  lemma LengthRoundTrip(n: nat, b: Vec)
    requires n < UINT32 && |b| >= PAYLOAD_HEADER && b[..PAYLOAD_HEADER] == Encode32(n)
    ensures Length32(b) == n
  {
    hide Index, Byte;
    var e := Encode32(n);
    assert b[0] == e[0] && b[1] == e[1] && b[2] == e[2] && b[3] == e[3];
  }

  /** The length field on the air: byte i is the quotient by 256^i, modulo 256. */
  lemma EncodedBytes(n: nat)
    requires n < 0x1_0000_0000
    ensures var e := Encode32(n);
            && Index(e[0]) == n % 0x100 && Index(e[1]) == n / 0x100 % 0x100
            && Index(e[2]) == n / 0x1_0000 % 0x100 && Index(e[3]) == n / 0x100_0000
  {
    hide Index, Byte;
  }

  lemma FourDigits(x0: nat, x1: nat, x2: nat, x3: nat)
    requires x0 < 0x100 && x1 < 0x100 && x2 < 0x100 && x3 < 0x100
    ensures var n := x0 + 0x100 * x1 + 0x1_0000 * x2 + 0x100_0000 * x3;
            n % 0x100 == x0 && n / 0x100 % 0x100 == x1 && n / 0x1_0000 % 0x100 == x2 && n / 0x100_0000 == x3
  {
    var n2 := x2 + 0x100 * x3;
    var n1 := x1 + 0x100 * n2;
    assert n1 % 0x100 == x1 && n1 / 0x100 == n2;
    assert n2 % 0x100 == x2 && n2 / 0x100 == x3;
  }

  /** Any four bytes are the encoding of the length that is read from them. */
  lemma DecodedIsEncoded(b: Vec)
    requires |b| >= PAYLOAD_HEADER
    ensures Encode32(Length32(b)) == b[..4]
  {
    hide Byte, Index, Encode32;
    var e := Encode32(Length32(b));
    FourDigits(Index(b[0]), Index(b[1]), Index(b[2]), Index(b[3]));
    hide Length32;
    EncodedBytes(Length32(b));
    ByteIndexInjective(e[0], b[0]);
    ByteIndexInjective(e[1], b[1]);
    ByteIndexInjective(e[2], b[2]);
    ByteIndexInjective(e[3], b[3]);
  }

  /** A packet as the sender finishes it. */
  ghost predicate IsPacket(p: Vec) {
    && |p| == PACKET_LENGTH
    && MIN_PACKET_LENGTH - PAYLOAD_HEADER <= Length32(p) <= PACKET_LENGTH - PAYLOAD_HEADER
  }

  ghost function Payload(p: Vec): (v: Vec)
    requires IsPacket(p)
    ensures |v| == Length32(p)
  {
    p[PAYLOAD_HEADER..PAYLOAD_HEADER + Length32(p)]
  }

  ghost predicate ArePackets(d: seq<Vec>) {
    forall i :: 0 <= i < |d| ==> IsPacket(d[i])
  }

  /** The payloads of packets, one after the other. */
  ghost function Payloads(d: seq<Vec>): Vec
    requires ArePackets(d)
  {
    if |d| == 0 then [] else Payloads(d[..|d| - 1]) + Payload(d[|d| - 1])
  }

  lemma PayloadsAppend(d: seq<Vec>, p: Vec)
    requires ArePackets(d) && IsPacket(p)
    ensures ArePackets(d + [p])
    ensures Payloads(d + [p]) == Payloads(d) + Payload(p)
  {
    assert (d + [p])[..|d|] == d;
  }

  // ----- blocks

  /** `n` data packets. */
  ghost predicate IsBlock(d: seq<Vec>, n: nat) {
    |d| == n && ArePackets(d)
  }

  ghost predicate AreStreamBlocks(blocks: seq<seq<Vec>>, n: nat) {
    forall b :: 0 <= b < |blocks| ==> IsBlock(blocks[b], n)
  }

  /** The bytes that the blocks carry. */
  ghost function Stream(blocks: seq<seq<Vec>>, n: nat): Vec
    requires AreStreamBlocks(blocks, n)
  {
    if |blocks| == 0 then []
    else Stream(blocks[..|blocks| - 1], n) + Payloads(blocks[|blocks| - 1])
  }

  lemma StreamAppend(blocks: seq<seq<Vec>>, n: nat, d: seq<Vec>)
    requires AreStreamBlocks(blocks, n) && IsBlock(d, n)
    ensures AreStreamBlocks(blocks + [d], n)
    ensures Stream(blocks + [d], n) == Stream(blocks, n) + Payloads(d)
  {
    assert (blocks + [d])[..|blocks|] == blocks;
  }

  /** What slot `s` of a block carries: a data packet or a FEC packet. */
  ghost function SlotBytes(d: seq<Vec>, f: nat, s: nat): (bytes: Vec)
    requires ArePackets(d) && |d| <= MAX_BLOCKS && f <= MAX_BLOCKS && s < |d| + f
    ensures |bytes| == PACKET_LENGTH
  {
    KindSlot(s, |d|, f);
    match SlotKind(s, |d|, f)
    case Data(i) => d[i]
    case FecBlock(j) => Parity(j, d, PACKET_LENGTH)
  }

  /** Copies `n` bytes. */
  method CopyBytes(dst: array<gf>, at: nat, src: array<gf>, from: nat, n: nat)
    requires dst != src && at + n <= dst.Length && from + n <= src.Length
    modifies dst
    ensures dst[..at] == old(dst[..at]) && dst[at..at + n] == src[from..from + n]
    ensures dst[at + n..] == old(dst[at + n..])
  {
    for i := 0 to n
      invariant dst[..at] == old(dst[..at]) && dst[at..at + i] == src[from..from + i]
      invariant dst[at + i..] == old(dst[at + i..])
    {
      dst[at + i] := src[from + i];
      assert dst[at..at + i + 1] == dst[at..at + i] + [src[from + i]];
      assert src[from..from + i + 1] == src[from..from + i] + [src[from + i]];
    }
  }
}
