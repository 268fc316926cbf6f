/** The sending end: an arbitrary stream of bytes is packed into packets, packets are grouped into
    blocks, and a finished block is sent together with its FEC packets. */
module Sender {
  import opened Field
  import opened Tables
  import opened Kernels
  import opened LinearAlgebra
  import opened Erasure
  import opened Fec
  import opened Interleave
  import opened Machine
  import opened Packets

  const MAX_USER_PACKET_LENGTH := 2278

  /** FEC packet `j` is left out if sending has been too slow and it is every second one.  `skip` is
      the number of rounds for which that goes on. */
  predicate Withheld(k: Kind, skip: int) {
    k.FecBlock? && skip - k.index >= 1 && k.index % 2 == 1
  }

  /** When sending has just been too slow, FEC packets 1 and 3 of the next block are left out; and none
      at all if it has not been for a while. */
  lemma WithheldUnderLoad(k: Kind)
    ensures Withheld(k, 4) <==> k == FecBlock(1) || k == FecBlock(3)
    ensures forall skip: int :: skip <= 1 ==> !Withheld(k, skip)
  {}

  /** The states of `skipFec` before the blocks: 0 in the beginning; after a block it is one less for each
      round of the sending loop, or 4 if the block took too long. */
  ghost predicate SkipsTell(s: seq<int>, d: nat, f: nat) {
    && |s| > 0 && s[0] == 0
    && forall i :: 0 < i < |s| ==> s[i] == 4 || s[i] == s[i - 1] - Max(d, f)
  }

  lemma SkipsNext(s: seq<int>, skip: int, next: int, d: nat, f: nat)
    requires SkipsTell(s + [skip], d, f) && (next == 4 || next == skip - Max(d, f))
    ensures SkipsTell(s + [skip] + [next], d, f)
  {
    var t := s + [skip];
    forall i | 0 < i < |t + [next]|
      ensures (t + [next])[i] == 4 || (t + [next])[i] == (t + [next])[i - 1] - Max(d, f)
    {
      if i < |t| {
        assert (t + [next])[i] == t[i];
      }
    }
  }

  /** With blocks of four rounds or more, every block is sent whole, or without its FEC packets 1 and 3. */
  lemma {:induction false} WithheldInRun(s: seq<int>, d: nat, f: nat, i: nat, k: Kind)
    requires SkipsTell(s, d, f) && i < |s| && Max(d, f) >= 4
    ensures s[i] == 4 || s[i] <= 0
    ensures Withheld(k, s[i]) ==> s[i] == 4 && (k == FecBlock(1) || k == FecBlock(3))
    decreases i
  {
    if i > 0 {
      WithheldInRun(s, d, f, i - 1, k);
    }
    WithheldUnderLoad(k);
  }

  /** What is sent of the first `n` slots of a block, in the order of the slots. */
  ghost function Transmission(seqNr: nat, d: seq<Vec>, f: nat, skip: int, n: nat): seq<Packet>
    requires ArePackets(d) && |d| <= MAX_BLOCKS && f <= MAX_BLOCKS && n <= |d| + f
  {
    if n == 0 then []
    else
      Transmission(seqNr, d, f, skip, n - 1) +
      if Withheld(SlotKind(n - 1, |d|, f), skip) then []
      else [Packet((seqNr + n - 1) % UINT32, SlotBytes(d, f, n - 1))]
  }

  /** A packet of the block `d`, by its kind. */
  ghost predicate IsKind(k: Kind, d: seq<Vec>, f: nat) {
    match k
    case Data(i) => i < |d|
    case FecBlock(j) => j < f
  }

  ghost function KindBytes(k: Kind, d: seq<Vec>, f: nat): Vec
    requires ArePackets(d) && |d| <= MAX_BLOCKS && f <= MAX_BLOCKS && IsKind(k, d, f)
  {
    match k
    case Data(i) => d[i]
    case FecBlock(j) => Parity(j, d, PACKET_LENGTH)
  }

  /** What is sent when the packets `order` of a block are sent one after the other. */
  ghost function SentAlong(order: seq<Kind>, seqNr: nat, d: seq<Vec>, f: nat, skip: int): seq<Packet>
    requires ArePackets(d) && |d| <= MAX_BLOCKS && f <= MAX_BLOCKS
    requires forall i :: 0 <= i < |order| ==> IsKind(order[i], d, f)
  {
    if |order| == 0 then []
    else
      var n := |order| - 1;
      SentAlong(order[..n], seqNr, d, f, skip) +
      if Withheld(order[n], skip) then [] else [Packet((seqNr + n) % UINT32, KindBytes(order[n], d, f))]
  }

  lemma {:induction false} TransmissionAlong(order: seq<Kind>, seqNr: nat, d: seq<Vec>, f: nat, skip: int)
    requires ArePackets(d) && |d| <= MAX_BLOCKS && f <= MAX_BLOCKS && |order| <= |d| + f
    requires forall s :: 0 <= s < |order| ==> order[s] == SlotKind(s, |d|, f) && IsKind(order[s], d, f)
    ensures Transmission(seqNr, d, f, skip, |order|) == SentAlong(order, seqNr, d, f, skip)
    decreases |order|
  {
    hide SlotKind, Withheld, IsPacket, Parity;
    if |order| > 0 {
      var n := |order| - 1;
      assert SlotKind(n, |d|, f) == order[n];
      TransmissionAlong(order[..n], seqNr, d, f, skip);
      KindOfSlot(d, f, n);
    }
  }

  lemma KindOfSlot(d: seq<Vec>, f: nat, s: nat)
    requires ArePackets(d) && |d| <= MAX_BLOCKS && f <= MAX_BLOCKS && s < |d| + f
    ensures IsKind(SlotKind(s, |d|, f), d, f) && SlotBytes(d, f, s) == KindBytes(SlotKind(s, |d|, f), d, f)
  {
    hide Parity, IsPacket;
    KindSlot(s, |d|, f);
  }

  /** The transmission of a block is its packets in the order of the sending loop: data and FEC packets
      alternate, and the rest of the longer kind follows. */
  lemma TransmissionFollowsOrder(seqNr: nat, d: seq<Vec>, f: nat, skip: int)
    requires ArePackets(d) && |d| <= MAX_BLOCKS && f <= MAX_BLOCKS
    ensures forall i :: 0 <= i < |Order(0, 0, |d|, f)| ==> IsKind(Order(0, 0, |d|, f)[i], d, f)
    ensures Transmission(seqNr, d, f, skip, |d| + f) == SentAlong(Order(0, 0, |d|, f), seqNr, d, f, skip)
  {
    hide Order, SlotKind, Transmission, SentAlong, IsPacket, Parity;
    var order := Order(0, 0, |d|, f);
    OrderOfBlock(|d|, f);
    forall s | 0 <= s < |order| ensures order[s] == SlotKind(s, |d|, f) && IsKind(order[s], d, f) {
      KindOfSlot(d, f, s);
    }
    TransmissionAlong(order, seqNr, d, f, skip);
  }

  /** Everything that is sent for finished blocks. */
  ghost function AllSent(blocks: seq<seq<Vec>>, skips: seq<int>, d: nat, f: nat): seq<Packet>
    requires AreStreamBlocks(blocks, d) && |skips| == |blocks| && d <= MAX_BLOCKS && f <= MAX_BLOCKS
  {
    if |blocks| == 0 then []
    else
      var n := |blocks| - 1;
      AllSent(blocks[..n], skips[..n], d, f) +
      Transmission(SequenceNumber(n, 0, d, f) % UINT32, blocks[n], f, skips[n], d + f)
  }

  lemma AllSentAppend(blocks: seq<seq<Vec>>, skips: seq<int>, d: nat, f: nat, p: seq<Vec>, skip: int)
    requires AreStreamBlocks(blocks, d) && |skips| == |blocks| && d <= MAX_BLOCKS && f <= MAX_BLOCKS && IsBlock(p, d)
    ensures AreStreamBlocks(blocks + [p], d)
    ensures AllSent(blocks + [p], skips + [skip], d, f) ==
            AllSent(blocks, skips, d, f) + Transmission(SequenceNumber(|blocks|, 0, d, f) % UINT32, p, f, skip, d + f)
  {
    hide Transmission, IsPacket;
    assert (blocks + [p])[..|blocks|] == blocks && (skips + [skip])[..|skips|] == skips;
  }

  lemma NothingSent(d: nat, f: nat)
    requires d <= MAX_BLOCKS && f <= MAX_BLOCKS
    ensures AreStreamBlocks([], d) && ArePackets([])
    ensures AllSent([], [], d, f) == [] && Stream([], d) + Payloads([]) + [] == []
    ensures SequenceNumber(0, 0, d, f) % UINT32 == 0
  {}

  lemma NextSequenceNumber(n: nat, d: nat, f: nat)
    ensures (SequenceNumber(n, 0, d, f) % UINT32 + d + f) % UINT32 == SequenceNumber(n + 1, 0, d, f) % UINT32
  {
    hide SequenceNumber;
    NextNumber(n, d, f);
    AddModulo(SequenceNumber(n, 0, d, f), d + f);
  }

  lemma NextNumber(n: nat, d: nat, f: nat)
    ensures SequenceNumber(n + 1, 0, d, f) == SequenceNumber(n, 0, d, f) + (d + f)
  {}

  lemma AddModulo(a: nat, b: nat)
    ensures (a % UINT32 + b) % UINT32 == (a + b) % UINT32
  {}

  lemma HeaderWritten(before: Vec, after: Vec, field: Vec, len: nat)
    requires MIN_PACKET_LENGTH <= len <= PACKET_LENGTH <= |before| == |after| && |field| == PAYLOAD_HEADER
    requires field == Encode32(len - PAYLOAD_HEADER)
    requires forall i :: 0 <= i < |after| ==> after[i] == if i < PAYLOAD_HEADER then field[i] else before[i]
    ensures IsPacket(after[..PACKET_LENGTH])
    ensures Payload(after[..PACKET_LENGTH]) == before[PAYLOAD_HEADER..len]
  {
    hide Byte, Index, Encode32, Length32;
    var p := after[..PACKET_LENGTH];
    assert p[..PAYLOAD_HEADER] == field;
    LengthRoundTrip(len - PAYLOAD_HEADER, p);
    assert p[PAYLOAD_HEADER..len] == before[PAYLOAD_HEADER..len];
  }

  // ----- how many packets, and how long

  /** The lengths of the payloads of packets. */
  ghost function Sizes(d: seq<Vec>): (s: seq<nat>)
    requires ArePackets(d)
    ensures |s| == |d|
  {
    seq(|d|, i requires 0 <= i < |d| => |Payload(d[i])|)
  }

  ghost function SizesOfBlocks(blocks: seq<seq<Vec>>, n: nat): (s: seq<nat>)
    requires AreStreamBlocks(blocks, n)
  {
    if |blocks| == 0 then []
    else SizesOfBlocks(blocks[..|blocks| - 1], n) + Sizes(blocks[|blocks| - 1])
  }

  /** The lengths of all packets that were finished. */
  ghost function AllSizes(blocks: seq<seq<Vec>>, packets: seq<Vec>, n: nat): seq<nat>
    requires AreStreamBlocks(blocks, n) && ArePackets(packets)
  {
    SizesOfBlocks(blocks, n) + Sizes(packets)
  }

  lemma {:induction false} NumberOfSizes(blocks: seq<seq<Vec>>, n: nat)
    requires AreStreamBlocks(blocks, n)
    ensures |SizesOfBlocks(blocks, n)| == |blocks| * n
  {
    hide IsPacket, Payload;
    if |blocks| > 0 {
      NumberOfSizes(blocks[..|blocks| - 1], n);
    }
  }

  lemma OneMorePacket(blocks: seq<seq<Vec>>, packets: seq<Vec>, n: nat, p: Vec)
    requires AreStreamBlocks(blocks, n) && ArePackets(packets) && IsPacket(p)
    ensures ArePackets(packets + [p])
    ensures AllSizes(blocks, packets + [p], n) == AllSizes(blocks, packets, n) + [|Payload(p)|]
  {
    hide IsPacket, Payload, SizesOfBlocks;
    assert Sizes(packets + [p]) == Sizes(packets) + [|Payload(p)|];
  }

  lemma OneMoreBlock(blocks: seq<seq<Vec>>, n: nat, block: seq<Vec>)
    requires AreStreamBlocks(blocks, n) && IsBlock(block, n)
    ensures AreStreamBlocks(blocks + [block], n) && ArePackets([])
    ensures AllSizes(blocks + [block], [], n) == AllSizes(blocks, block, n)
  {
    hide IsPacket, Payload, Sizes;
    assert (blocks + [block])[..|blocks|] == blocks;
    assert Sizes([]) == [];
  }

  /** The lengths of the payloads into which `n` bytes at hand are cut. */
  function Cut(n: nat): seq<nat> {
    if n >= PACKET_LENGTH - PAYLOAD_HEADER then
      [PACKET_LENGTH - PAYLOAD_HEADER] + Cut(n - (PACKET_LENGTH - PAYLOAD_HEADER))
    else if n >= MIN_PACKET_LENGTH - PAYLOAD_HEADER then [n]
    else []
  }

  /** As many packets of 1020 bytes as possible, and the rest makes a packet if it has 20 bytes. */
  lemma {:induction false} CutIsFull(n: nat)
    ensures var full, rest := n / 1020, n % 1020;
            && |Cut(n)| == full + (if rest >= 20 then 1 else 0)
            && (forall i :: 0 <= i < full ==> Cut(n)[i] == 1020)
            && (rest >= 20 ==> Cut(n)[full] == rest)
  {
    if n >= 1020 {
      CutIsFull(n - 1020);
      assert n / 1020 == (n - 1020) / 1020 + 1 && n % 1020 == (n - 1020) % 1020;
    }
  }

  /** The bytes that have to wait for more. */
  function Waiting(n: nat): nat { if n % 1020 < 20 then n % 1020 else 0 }

  /** One packet on the way. */
  lemma CutNext(n: nat, taken: nat)
    requires taken == if n < 1020 then n else 1020
    ensures Cut(n) == if taken >= 20 then [taken] + Cut(n - taken) else []
    ensures Waiting(n) == if taken >= 20 then Waiting(n - taken) else n
  {}

  /** The lengths so far, and those to come, when a packet of `taken` bytes has been filled. */
  lemma CutStep(cut: seq<nat>, next: seq<nat>, n: nat, taken: nat, all: nat)
    requires taken == (if n < 1020 then n else 1020) && cut + Cut(n) == Cut(all) && Waiting(n) == Waiting(all)
    requires next == if taken >= 20 then cut + [taken] else cut
    ensures var rest := if taken >= 20 then n - taken else n;
            next + Cut(rest) == Cut(all) && Waiting(rest) == Waiting(all)
  {
    hide Cut, Waiting;
    CutNext(n, taken);
    if taken >= 20 {
      assert cut + ([taken] + Cut(n - taken)) == next + Cut(n - taken);
    } else {
      CutNext(n, n);
    }
  }

  class PacketBuffer {
    var len: nat
    const data: array<gf>

    constructor (size: nat)
      ensures len == 0 && data.Length == size && fresh(data)
    {
      len := 0;
      data := new gf[size];
    }

    /** The payload so far, after the place of the length field. */
    ghost function Gathered(): Vec
      requires len <= data.Length
      reads this, data
    {
      if len < PAYLOAD_HEADER then [] else data[PAYLOAD_HEADER..len]
    }

    lemma NothingGathered()
      requires len == 0 && len <= data.Length
      ensures Gathered() == []
    {}

    lemma GatheredLength()
      requires (len == 0 || PAYLOAD_HEADER <= len) && len <= data.Length
      ensures |Gathered()| == if len == 0 then 0 else len - PAYLOAD_HEADER
    {}

    /** Appends to the payload; a fresh packet gets room for the length field first. */
    method Append(src: array<gf>, offset: nat, end: nat) returns (copyLen: nat)
      requires src != data && offset <= end <= src.Length && PACKET_LENGTH <= data.Length
      requires len == 0 || PAYLOAD_HEADER <= len < MIN_PACKET_LENGTH
      modifies this`len, data
      ensures PAYLOAD_HEADER <= len <= PACKET_LENGTH
      ensures copyLen == Min(end - offset, PACKET_LENGTH - PAYLOAD_HEADER - old(|Gathered()|))
      ensures Gathered() == old(Gathered()) + src[offset..offset + copyLen]
    {
      if len == 0 {
        len := len + PAYLOAD_HEADER;
      }
      copyLen := end - offset;
      if copyLen > PACKET_LENGTH - len {
        copyLen := PACKET_LENGTH - len;
      }
      ghost var n, before := len, data[..];
      CopyBytes(data, len, src, offset, copyLen);
      len := len + copyLen;
      assert data[..n] == before[..n];
      assert data[PAYLOAD_HEADER..len] == data[..n][PAYLOAD_HEADER..] + data[n..len];
      assert before[PAYLOAD_HEADER..n] == before[..n][PAYLOAD_HEADER..];
    }

    /** Writes the length of the payload in front of it. */
    method WriteLength()
      requires MIN_PACKET_LENGTH <= len <= PACKET_LENGTH <= data.Length
      modifies data
      ensures IsPacket(data[..PACKET_LENGTH])
      ensures Payload(data[..PACKET_LENGTH]) == old(Gathered())
    {
      hide Byte, Index, Encode32, Length32;
      ghost var before := data[..];
      var field := Encode32(len - PAYLOAD_HEADER);
      data[0], data[1], data[2], data[3] := field[0], field[1], field[2], field[3];
      HeaderWritten(before, data[..], field, len);
    }
  }

  /** `alloc_packet_buffer_list` */
  method AllocPacketBufferList(n: nat) returns (list: seq<PacketBuffer>)
    ensures |list| == n
    ensures forall i :: 0 <= i < n ==> fresh(list[i]) && fresh(list[i].data)
    ensures forall i :: 0 <= i < n ==> list[i].len == 0 && list[i].data.Length == MAX_PACKET_LENGTH
    ensures forall i, j :: 0 <= i < j < n ==> list[i] != list[j] && list[i].data != list[j].data
  {
    list := [];
    for k := 0 to n
      invariant |list| == k
      invariant forall i :: 0 <= i < k ==> fresh(list[i]) && fresh(list[i].data)
      invariant forall i :: 0 <= i < k ==> list[i].len == 0 && list[i].data.Length == MAX_PACKET_LENGTH
      invariant forall i, j :: 0 <= i < j < k ==> list[i] != list[j] && list[i].data != list[j].data
    {
      var pb := new PacketBuffer(MAX_PACKET_LENGTH);
      list := list + [pb];
    }
  }

  class TxStream {
    const g: Galois
    const d: nat
    const f: nat
    const pbl: seq<PacketBuffer>
    var seqNr: nat
    var currPb: nat
    var skipFec: int

    /** Everything written to the sockets. */
    var sent: seq<Packet>

    /** The finished blocks with the state of `skipFec` when they were sent, the finished packets of
        the current block, the payload of the current packet, and all the bytes taken so far. */
    ghost var blocks: seq<seq<Vec>>
    ghost var skips: seq<int>
    ghost var packets: seq<Vec>
    ghost var pending: Vec
    ghost var input: Vec

    /** The memory of the sender: its fields, its packet buffers and their bytes. */
    ghost function Memory(): set<object> {
      {this} + (set i | 0 <= i < |pbl| :: pbl[i] as object) + (set i | 0 <= i < |pbl| :: pbl[i].data as object)
    }

    ghost predicate Shaped() {
      && 0 < d <= MAX_PACKETS_PER_BLOCK && f <= MAX_PACKETS_PER_BLOCK && |pbl| == d
      && (forall i :: 0 <= i < d ==> PACKET_LENGTH <= pbl[i].data.Length)
      && (forall i, j :: 0 <= i < j < d ==> pbl[i] != pbl[j] && pbl[i].data != pbl[j].data)
      && (forall i :: 0 <= i < d ==> Outside(g, pbl[i].data) && pbl[i].data as object !in {g.gfExp as object, g.gfLog})
    }

    /** The buffers of the current block hold `packets` and `pending`. */
    ghost predicate Holding()
      requires Shaped()
      reads Memory()
    {
      && currPb < d && |packets| == currPb
      && (forall i :: 0 <= i < currPb ==> pbl[i].data[..PACKET_LENGTH] == packets[i])
      && (forall i :: currPb < i < d ==> pbl[i].len == 0)
      && (pbl[currPb].len == 0 || PAYLOAD_HEADER <= pbl[currPb].len < MIN_PACKET_LENGTH)
      && pending == pbl[currPb].Gathered()
    }

    /** No byte is lost, added or moved. */
    ghost predicate Conserved()
      reads this
    {
      && AreStreamBlocks(blocks, d) && ArePackets(packets)
      && input == Stream(blocks, d) + Payloads(packets) + pending
    }

    ghost predicate Valid()
      reads Memory(), g, g.inverse, g.mulTable
    {
      && Shaped() && g.Ready() && Holding() && Conserved()
      && |skips| == |blocks| && sent == AllSent(blocks, skips, d, f)
      && SkipsTell(skips + [skipFec], d, f)
      && seqNr == SequenceNumber(|blocks|, 0, d, f) % UINT32
    }

    constructor (g: Galois, d: nat, f: nat)
      requires g.Ready() && 0 < d <= 32 && f <= 32
      ensures Valid() && fresh(Memory())
      ensures this.g == g && this.d == d && this.f == f
      ensures sent == [] && blocks == [] && input == [] && packets == [] && pending == [] && skipFec == 0
      ensures forall i :: 0 <= i < d ==> pbl[i].data.Length == 4192
    {
      hide Galois.Ready, AllSent, Stream, Payloads, AreStreamBlocks, SequenceNumber, ArePackets;
      NothingSent(d, f);
      var list := AllocPacketBufferList(d);
      this.g, this.d, this.f, pbl := g, d, f, list;
      seqNr, currPb, skipFec, sent := 0, 0, 0, [];
      blocks, skips, packets, pending, input := [], [], [], [], [];
    }

    lemma ValidShape()
      requires Valid()
      ensures AreStreamBlocks(blocks, d) && ArePackets(packets) && |pending| < 20
    {
      hide Galois.Ready, IsPacket, AllSent, Stream, Payloads;
    }

    // ----- sending a block

    /** One packet to the sockets.  A failing write is only logged by the caller. */
    method TransmitPacket(seqNumber: nat, data: array<gf>, length: nat)
      requires length <= data.Length
      modifies this`sent
      ensures sent == old(sent) + [Packet(seqNumber % UINT32, data[..length])]
    {
      sent := sent + [Packet(seqNumber % UINT32, data[..length])];
    }

    /** The buffers of a whole block hold the packets `p`. */
    ghost predicate BlockHeld(p: seq<Vec>)
      requires Shaped()
      reads Memory()
    {
      IsBlock(p, d) && forall i :: 0 <= i < d ==> pbl[i].data[..PACKET_LENGTH] == p[i]
    }

    /** The FEC packets of the block, in a pool of their own. */
    method EncodeBlock(ghost p: seq<Vec>) returns (fec: seq<array<gf>>)
      requires Shaped() && g.Ready() && BlockHeld(p)
      ensures |fec| == f
      ensures forall j :: 0 <= j < f ==> fresh(fec[j]) && fec[j].Length == 2278
      ensures forall j :: 0 <= j < f ==> fec[j][..PACKET_LENGTH] == Parity(j, p, PACKET_LENGTH)
    {
      hide Galois.Ready, Parity, IsPacket;
      var dataBlocks := seq(d, i requires 0 <= i < d => pbl[i].data);
      fec := [];
      for i := 0 to f
        invariant |fec| == i
        invariant forall j :: 0 <= j < i ==> fresh(fec[j]) && fec[j].Length == MAX_USER_PACKET_LENGTH
        invariant forall j, k :: 0 <= j < k < i ==> fec[j] != fec[k]
      {
        var block := new gf[MAX_USER_PACKET_LENGTH];
        fec := fec + [block];
      }
      if f > 0 {
        FecEncode(g, PACKET_LENGTH, dataBlocks, fec);
        assert Contents(dataBlocks, PACKET_LENGTH) == p;
      }
    }

    /** Data and FEC packets interleaved.  Under `skipFec` some FEC packets are left out, but they keep
        their sequence numbers. */
    method SendInterleaved(fec: seq<array<gf>>, ghost p: seq<Vec>)
      requires Shaped() && BlockHeld(p) && |fec| == f
      requires forall j :: 0 <= j < f ==> PACKET_LENGTH <= fec[j].Length
      requires forall j :: 0 <= j < f ==> fec[j][..PACKET_LENGTH] == Parity(j, p, PACKET_LENGTH)
      modifies this`sent, this`skipFec
      ensures sent == old(sent) + Transmission(seqNr, p, f, old(skipFec), d + f)
      ensures skipFec == old(skipFec) - Max(d, f)
    {
      hide Parity, IsPacket, SlotKind, Transmission, Withheld, InStep, Min, Max;
      RoundsStart(d, f);
      var di, fi, seqNrTmp, counterFec := 0, 0, seqNr, 0;
      TransmissionStart(seqNr, p, f, skipFec);
      assert sent == sent + [];
      while di < d || fi < f
        invariant InStep(di, fi, d, f) && di <= d && fi <= f && seqNrTmp == seqNr + di + fi
        invariant skipFec == old(skipFec) - Max(di, fi)
        invariant old(skipFec) - fi >= 1 ==> counterFec == fi
        invariant sent == old(sent) + Transmission(seqNr, p, f, old(skipFec), di + fi)
        decreases d - di + f - fi
      {
        RoundSlots(di, fi, d, f);
        if di < d {
          DataSent(seqNr, p, f, old(skipFec), di, di + fi);
          TransmitPacket(seqNrTmp, pbl[di].data, PACKET_LENGTH);
          seqNrTmp := seqNrTmp + 1;
          di := di + 1;
        }
        if fi < f {
          FecSent(seqNr, p, f, old(skipFec), fi, di + fi);
          if skipFec < 1 {
            TransmitPacket(seqNrTmp, fec[fi], PACKET_LENGTH);
          } else {
            if counterFec % 2 == 0 {
              TransmitPacket(seqNrTmp, fec[fi], PACKET_LENGTH);
            }
            counterFec := counterFec + 1;
          }
          seqNrTmp := seqNrTmp + 1;
          fi := fi + 1;
        }
        skipFec := skipFec - 1;
      }
    }

    /** The lengths for the next packets. */
    method ResetLengths()
      requires Shaped()
      modifies set i | 0 <= i < |pbl| :: pbl[i]`len
      ensures forall i :: 0 <= i < d ==> pbl[i].len == 0
    {
      for i := 0 to d
        invariant forall j :: 0 <= j < i ==> pbl[j].len == 0
      {
        pbl[i].len := 0;
      }
    }

    /** Sends the finished block `p` and starts a new one. */
    method TransmitBlock(ghost p: seq<Vec>)
      requires Shaped() && g.Ready() && BlockHeld(p)
      modifies this`sent, this`skipFec, this`seqNr, set i | 0 <= i < |pbl| :: pbl[i]`len
      ensures sent == old(sent) + Transmission(old(seqNr), p, f, old(skipFec), d + f)
      ensures seqNr == (old(seqNr) + d + f) % UINT32
      ensures skipFec == old(skipFec) - Max(d, f) || skipFec == 4
      ensures forall i :: 0 <= i < d ==> pbl[i].len == 0
    {
      hide Galois.Ready, Parity, IsPacket, SlotKind, Transmission;
      var fec := EncodeBlock(p);
      SendInterleaved(fec, p);
      var slow: bool := *;  // the clock
      if slow {
        skipFec := 4;
      }
      seqNr := (seqNr + d + f) % UINT32;
      ResetLengths();
    }

    // ----- packing the stream

    /** As `Holding`, but the current packet may be finished. */
    ghost predicate Filled()
      requires Shaped()
      reads Memory()
    {
      && currPb < d && |packets| == currPb
      && (forall i :: 0 <= i < currPb ==> pbl[i].data[..PACKET_LENGTH] == packets[i])
      && (forall i :: currPb < i < d ==> pbl[i].len == 0)
      && PAYLOAD_HEADER <= pbl[currPb].len <= PACKET_LENGTH
      && pending == pbl[currPb].Gathered()
    }

    ghost predicate FilledValid()
      reads Memory(), g, g.inverse, g.mulTable
    {
      && Shaped() && g.Ready() && Filled() && Conserved()
      && |skips| == |blocks| && sent == AllSent(blocks, skips, d, f)
      && SkipsTell(skips + [skipFec], d, f)
      && seqNr == SequenceNumber(|blocks|, 0, d, f) % UINT32
    }

    /** Moves as much of `data[offset..len]` into the current packet as there is room for. */
    method Fill(data: array<gf>, offset: nat, len: nat) returns (copyLen: nat)
      requires Valid() && offset <= len <= data.Length && data as object !in Memory()
      modifies this`pending, this`input, pbl[currPb], pbl[currPb].data
      ensures FilledValid()
      ensures |old(pending)| < 20 && copyLen == Min(len - offset, 1020 - |old(pending)|)
      ensures |pending| == |old(pending)| + copyLen && pbl[currPb].len == PAYLOAD_HEADER + |pending|
      ensures input == old(input) + data[offset..offset + copyLen]
    {
      hide Galois.Ready, IsPacket, AllSent, Stream, Payloads, AreStreamBlocks, PacketBuffer.Gathered;
      pbl[currPb].GatheredLength();
      copyLen := pbl[currPb].Append(data, offset, len);
      pbl[currPb].GatheredLength();
      ghost var bytes := data[offset..offset + copyLen];
      pending, input := pending + bytes, input + bytes;
    }

    /** Ends the packet in hand: its length is written, and it is counted. */
    method FinishPacket()
      requires FilledValid() && pbl[currPb].len >= MIN_PACKET_LENGTH && currPb < d - 1
      modifies this`packets, this`pending, this`currPb, pbl[currPb].data
      ensures Valid() && pending == []
      ensures AreStreamBlocks(blocks, d) && ArePackets(packets) && ArePackets(old(packets))
      ensures AllSizes(blocks, packets, d) == AllSizes(blocks, old(packets), d) + [|old(pending)|]
    {
      hide Galois.Ready, IsPacket, AllSent, Stream, Payloads, AreStreamBlocks, Payload, PacketBuffer.Gathered;
      var pb := pbl[currPb];
      pb.WriteLength();
      ghost var p := pb.data[..PACKET_LENGTH];
      PayloadsAppend(packets, p);
      ConservedAppend(Stream(blocks, d), packets, p, input);
      OneMorePacket(blocks, packets, d, p);
      packets, pending := packets + [p], [];
      currPb := currPb + 1;
      pbl[currPb].NothingGathered();
    }

    /** Ends the last packet of a block, which then is `block`. */
    method FinishLastPacket() returns (ghost block: seq<Vec>)
      requires FilledValid() && pbl[currPb].len >= MIN_PACKET_LENGTH && currPb == d - 1
      modifies pbl[currPb].data
      ensures g.Ready() && BlockHeld(block) && IsBlock(block, d) && AreStreamBlocks(blocks, d)
      ensures input == Stream(blocks, d) + Payloads(block) + []
      ensures ArePackets(packets) && AllSizes(blocks, block, d) == AllSizes(blocks, packets, d) + [|pending|]
    {
      hide Galois.Ready, IsPacket, AllSent, Stream, Payloads, AreStreamBlocks, Payload, PacketBuffer.Gathered;
      var pb := pbl[currPb];
      pb.WriteLength();
      ghost var p := pb.data[..PACKET_LENGTH];
      PayloadsAppend(packets, p);
      ConservedAppend(Stream(blocks, d), packets, p, input);
      OneMorePacket(blocks, packets, d, p);
      block := packets + [p];
    }

    /** A new block begins. */
    method BeginBlock()
      requires Shaped() && g.Ready() && forall i :: 0 <= i < d ==> pbl[i].len == 0
      requires AreStreamBlocks(blocks, d) && packets == [] && pending == []
      requires input == Stream(blocks, d) + Payloads([]) + []
      requires |skips| == |blocks| && sent == AllSent(blocks, skips, d, f) && SkipsTell(skips + [skipFec], d, f)
      requires seqNr == SequenceNumber(|blocks|, 0, d, f) % UINT32
      modifies this`currPb
      ensures Valid()
    {
      hide Galois.Ready, IsPacket, AllSent, Stream, Payloads, AreStreamBlocks, PacketBuffer.Gathered, SequenceNumber;
      currPb := 0;
      pbl[0].NothingGathered();
    }

    /** Ends and sends a block. */
    method FinishBlock()
      requires Shaped() && FilledValid() && pbl[currPb].len >= MIN_PACKET_LENGTH && currPb == d - 1
      modifies Memory()
      ensures Valid() && input == old(input) && pending == []
      ensures old(blocks) <= blocks && old(skips) <= skips
      ensures AreStreamBlocks(blocks, d) && ArePackets(packets)
      ensures AreStreamBlocks(old(blocks), d) && ArePackets(old(packets))
      ensures AllSizes(blocks, packets, d) == AllSizes(old(blocks), old(packets), d) + [|old(pending)|]
    {
      hide AllSizes, SkipsTell, Withheld, UINT32, Max, Galois.Ready, IsPacket, AllSent, Stream, Payloads;
      hide AreStreamBlocks, Payload, PacketBuffer.Gathered, Transmission, SequenceNumber, Valid, Filled;
      hide BlockHeld, IsBlock, ArePackets;
      ghost var skip := skipFec;
      ghost var block := FinishLastPacket();
      BlockAppended(blocks, skips, d, f, block, skip, input);
      TransmitBlock(block);
      SkipsNext(skips, skip, skipFec, d, f);
      blocks, skips, packets, pending := blocks + [block], skips + [skip], [], [];
      BeginBlock();
    }

    /** Takes the bytes `data[..len]`: fills packets, and sends every block that is finished on the
        way. */
    method WfbTxStream(data: array<gf>, len: nat)
      requires Valid() && len <= data.Length && len < 0x1_0000 && data as object !in Memory()
      modifies Memory()
      ensures Valid()
      ensures input == old(input) + data[..len]
      ensures old(blocks) <= blocks && old(skips) <= skips
      ensures AreStreamBlocks(blocks, d) && ArePackets(packets)
      ensures AreStreamBlocks(old(blocks), d) && ArePackets(old(packets))
      ensures var n := |old(pending)| + len;
              && AllSizes(blocks, packets, d) == AllSizes(old(blocks), old(packets), d) + Cut(n)
              && |pending| == Waiting(n)
    {
      hide TxStream.Valid, AllSizes, Cut, Waiting, AreStreamBlocks, ArePackets, IsPacket;
      ValidShape();
      ghost var sizes, n := AllSizes(blocks, packets, d), |pending| + len;
      ghost var cut: seq<nat> := [];
      var offset, again := 0, true;
      assert data[..0] == [];
      while again
        invariant Valid() && offset <= len && (again || offset == len)
        invariant input == old(input) + data[..offset]
        invariant old(blocks) <= blocks && old(skips) <= skips
        invariant AreStreamBlocks(blocks, d) && ArePackets(packets) && |pending| < 20
        invariant AllSizes(blocks, packets, d) == sizes + cut
        invariant cut + Cut(|pending| + (len - offset)) == Cut(n)
        invariant Waiting(|pending| + (len - offset)) == Waiting(n)
        decreases len - offset, again
      {
        ghost var before := |pending|;
        var copyLen := Pass(data, offset, len);
        ghost var next := if before + copyLen >= 20 then cut + [before + copyLen] else cut;
        CutStep(cut, next, before + (len - offset), before + copyLen, n);
        assert sizes + next == if before + copyLen >= 20 then (sizes + cut) + [before + copyLen] else sizes + cut;
        cut := next;
        assert data[..offset + copyLen] == data[..offset] + data[offset..offset + copyLen];
        offset := offset + copyLen;
        again := offset < len;
      }
      CutNext(|pending|, |pending|);
    }

    /** One pass of the loop: fill a packet, and end it if it is long enough. */
    method Pass(data: array<gf>, offset: nat, len: nat) returns (copyLen: nat)
      requires Valid() && offset <= len <= data.Length && data as object !in Memory()
      modifies Memory()
      ensures Valid()
      ensures |old(pending)| < 20 && copyLen == Min(len - offset, 1020 - |old(pending)|)
      ensures input == old(input) + data[offset..offset + copyLen]
      ensures old(blocks) <= blocks && old(skips) <= skips
      ensures AreStreamBlocks(blocks, d) && ArePackets(packets)
      ensures AreStreamBlocks(old(blocks), d) && ArePackets(old(packets))
      ensures var taken := |old(pending)| + copyLen;
              if taken >= 20 then
                pending == []
                && AllSizes(blocks, packets, d) == AllSizes(old(blocks), old(packets), d) + [taken]
              else
                |pending| == taken && AllSizes(blocks, packets, d) == AllSizes(old(blocks), old(packets), d)
    {
      hide AllSizes, SkipsTell, Galois.Ready, IsPacket, AllSent, Stream, Payloads, AreStreamBlocks, Payload;
      hide PacketBuffer.Gathered, Conserved;
      ValidShape();
      copyLen := Fill(data, offset, len);
      if pbl[currPb].len >= MIN_PACKET_LENGTH {
        if currPb == d - 1 {
          FinishBlock();
        } else {
          FinishPacket();
        }
      } else {
        ShortIsValid();
      }
    }

    /** A packet that is too short is not finished. */
    lemma ShortIsValid()
      requires FilledValid() && pbl[currPb].len < MIN_PACKET_LENGTH
      ensures Valid() && AreStreamBlocks(blocks, d) && ArePackets(packets)
    {
      hide Galois.Ready, IsPacket, AllSent, Stream, Payloads;
    }
  }

  lemma ConservedBlock(blocks: seq<seq<Vec>>, d: nat, block: seq<Vec>, input: Vec)
    requires AreStreamBlocks(blocks, d) && IsBlock(block, d)
    requires input == Stream(blocks, d) + Payloads(block) + []
    ensures AreStreamBlocks(blocks + [block], d) && ArePackets([])
    ensures input == Stream(blocks + [block], d) + Payloads([]) + []
  {
    StreamAppend(blocks, d, block);
  }

  /** What is known when a block is finished. */
  lemma BlockAppended(blocks: seq<seq<Vec>>, skips: seq<int>, d: nat, f: nat, block: seq<Vec>, skip: int, input: Vec)
    requires AreStreamBlocks(blocks, d) && |skips| == |blocks| && d <= MAX_BLOCKS && f <= MAX_BLOCKS
    requires IsBlock(block, d) && input == Stream(blocks, d) + Payloads(block) + []
    ensures AreStreamBlocks(blocks + [block], d) && ArePackets([])
    ensures AllSent(blocks + [block], skips + [skip], d, f) ==
            AllSent(blocks, skips, d, f) +
            Transmission(SequenceNumber(|blocks|, 0, d, f) % UINT32, block, f, skip, d + f)
    ensures (SequenceNumber(|blocks|, 0, d, f) % UINT32 + d + f) % UINT32
         == SequenceNumber(|blocks| + 1, 0, d, f) % UINT32
    ensures input == Stream(blocks + [block], d) + Payloads([]) + []
    ensures AllSizes(blocks + [block], [], d) == AllSizes(blocks, block, d)
  {
    hide AllSent, Transmission, SequenceNumber, Stream, Payloads, AllSizes, IsPacket, AreStreamBlocks;
    AllSentAppend(blocks, skips, d, f, block, skip);
    NextSequenceNumber(|blocks|, d, f);
    ConservedBlock(blocks, d, block, input);
    OneMoreBlock(blocks, d, block);
  }

  lemma ConservedAppend(stream: Vec, packets: seq<Vec>, p: Vec, input: Vec)
    requires ArePackets(packets) && IsPacket(p)
    requires input == stream + Payloads(packets) + Payload(p)
    ensures ArePackets(packets + [p])
    ensures input == stream + Payloads(packets + [p]) + []
  {
    hide Payload, IsPacket;
    PayloadsAppend(packets, p);
  }

  lemma TransmissionStart(seqNr: nat, p: seq<Vec>, f: nat, skip: int)
    requires ArePackets(p) && |p| <= MAX_BLOCKS && f <= MAX_BLOCKS
    ensures Transmission(seqNr, p, f, skip, 0) == []
  {}

  lemma DataSent(seqNr: nat, p: seq<Vec>, f: nat, skip: int, i: nat, s: nat)
    requires ArePackets(p) && |p| <= MAX_BLOCKS && f <= MAX_BLOCKS && i < |p| && s < |p| + f
    requires SlotKind(s, |p|, f) == Data(i)
    ensures Transmission(seqNr, p, f, skip, s + 1) ==
            Transmission(seqNr, p, f, skip, s) + [Packet((seqNr + s) % UINT32, p[i])]
  {
    hide SlotKind, IsPacket, Parity;
  }

  lemma FecSent(seqNr: nat, p: seq<Vec>, f: nat, skip: int, j: nat, s: nat)
    requires ArePackets(p) && |p| <= MAX_BLOCKS && f <= MAX_BLOCKS && j < f && s < |p| + f
    requires SlotKind(s, |p|, f) == FecBlock(j)
    ensures ArePackets(p) && AreBlocks(p, PACKET_LENGTH)
    ensures Transmission(seqNr, p, f, skip, s + 1) ==
            Transmission(seqNr, p, f, skip, s) +
            if skip - j >= 1 && j % 2 == 1 then []
            else [Packet((seqNr + s) % UINT32, Parity(j, p, PACKET_LENGTH))]
  {
    hide SlotKind, Parity;
  }

  /** The slots of the next round of the sending loop. */
  lemma RoundSlots(di: nat, fi: nat, d: nat, f: nat)
    requires InStep(di, fi, d, f) && (di < d || fi < f)
    ensures di < d ==> SlotKind(di + fi, d, f) == Data(di)
    ensures fi < f ==>
      var s := (if di < d then di + 1 else di) + fi;
      s < d + f && SlotKind(s, d, f) == FecBlock(fi)
    ensures var di2, fi2 := if di < d then di + 1 else di, if fi < f then fi + 1 else fi;
            InStep(di2, fi2, d, f) && Max(di2, fi2) == Max(di, fi) + 1
    ensures fi < f ==> Max(di, fi) == fi
  {}

  lemma RoundsStart(d: nat, f: nat)
    ensures InStep(0, 0, d, f) && Max(0, 0) == 0
  {}
}
