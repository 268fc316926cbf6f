/** What the receiver delivers over a whole run.  A simple machine that only remembers which packets of
    the newest block have arrived says the same as the receiver; so the order, the number and the
    adapter of the packets of a block do not matter. */
module Delivery {
  import opened Field
  import opened LinearAlgebra
  import opened Erasure
  import opened Interleave
  import opened Packets
  import opened Reception

  // ----- the simple machine

  /** A packet that arrives: its block and its place in the block. */
  datatype Arrival = Arrival(block: nat, slot: nat)

  /** The newest block, or -1, the places of it that have arrived, and the bytes delivered. */
  datatype Simple = Simple(cur: int, got: set<nat>, out: Vec)

  ghost function MissingFrom(l: Layout, got: set<nat>, n: nat): nat
    requires n <= l.d
  {
    if n == 0 then 0 else MissingFrom(l, got, n - 1) + if DataSlot(n - 1, l.d, l.f) in got then 0 else 1
  }

  ghost function AvailableFrom(l: Layout, got: set<nat>, n: nat): nat
    requires n <= l.f
  {
    if n == 0 then 0 else AvailableFrom(l, got, n - 1) + if FecSlot(n - 1, l.d, l.f) in got then 1 else 0
  }

  /** At least as many FEC packets arrived as data packets are missing. */
  ghost predicate Repairable(l: Layout, got: set<nat>) {
    MissingFrom(l, got, l.d) <= AvailableFrom(l, got, l.f)
  }

  /** The payloads of the data packets below `n` that arrived, in order. */
  ghost function ReceivedPayloads(block: seq<Vec>, l: Layout, got: set<nat>, n: nat): Vec
    requires IsBlock(block, l.d) && n <= l.d
  {
    if n == 0 then []
    else
      ReceivedPayloads(block, l, got, n - 1) + if DataSlot(n - 1, l.d, l.f) in got then Payload(block[n - 1]) else []
  }

  /** What is delivered of a block. */
  ghost function FlushOutput(block: seq<Vec>, l: Layout, got: set<nat>): Vec
    requires IsBlock(block, l.d)
  {
    if Repairable(l, got) then Payloads(block) else ReceivedPayloads(block, l, got, l.d)
  }

  ghost function Next(m: Simple, a: Arrival, blocks: seq<seq<Vec>>, l: Layout): Simple
    requires AreStreamBlocks(blocks, l.d) && m.cur < |blocks|
  {
    if a.block > m.cur then
      Simple(a.block, {a.slot}, m.out + if m.cur < 0 then [] else FlushOutput(blocks[m.cur], l, m.got))
    else if a.block == m.cur then m.(got := m.got + {a.slot})
    else m
  }

  ghost predicate AreArrivals(arrivals: seq<Arrival>, blocks: seq<seq<Vec>>, l: Layout) {
    && AreStreamBlocks(blocks, l.d)
    && forall i :: 0 <= i < |arrivals| ==> arrivals[i].block < |blocks| && arrivals[i].slot < l.d + l.f
  }

  ghost function Simply(arrivals: seq<Arrival>, blocks: seq<seq<Vec>>, l: Layout): (m: Simple)
    requires AreArrivals(arrivals, blocks, l)
    ensures -1 <= m.cur < |blocks|
  {
    if |arrivals| == 0 then Simple(-1, {}, [])
    else Next(Simply(arrivals[..|arrivals| - 1], blocks, l), arrivals[|arrivals| - 1], blocks, l)
  }

  lemma SimplyLast(arrivals: seq<Arrival>, before: seq<Arrival>, a: Arrival, blocks: seq<seq<Vec>>, l: Layout)
    requires AreArrivals(arrivals, blocks, l) && arrivals == before + [a]
    ensures AreArrivals(before, blocks, l) && arrivals[..|arrivals| - 1] == before
    ensures Simply(arrivals, blocks, l) == Next(Simply(before, blocks, l), a, blocks, l)
  {
    hide Next;
    assert arrivals[..|arrivals| - 1] == before;
  }

  lemma SimplyNothing(blocks: seq<seq<Vec>>, l: Layout)
    requires AreArrivals([], blocks, l)
    ensures Simply([], blocks, l) == Simple(-1, {}, [])
  {}

  // ----- one block

  /** The buffer holds exactly the packets `got` of the block. */
  ghost predicate Holds(slots: seq<Slot>, l: Layout, block: seq<Vec>, got: set<nat>) {
    && l.Ok() && AreSlots(slots, l) && IsBlock(block, l.d)
    && forall s :: 0 <= s < |slots| ==>
      && (slots[s].valid <==> s in got) && slots[s].crcCorrect == slots[s].valid
      && (slots[s].valid ==> slots[s].bytes[..PACKET_LENGTH] == SlotBytes(block, l.f, s))
  }

  lemma HoldsData(slots: seq<Slot>, l: Layout, block: seq<Vec>, got: set<nat>, i: nat)
    requires Holds(slots, l, block, got) && i < l.d
    ensures DataAt(slots, l, i).valid <==> DataSlot(i, l.d, l.f) in got
    ensures IsBad(slots, l, i) <==> DataSlot(i, l.d, l.f) !in got
    ensures DataAt(slots, l, i).valid ==> DataAt(slots, l, i).bytes[..PACKET_LENGTH] == block[i]
  {
    hide DataSlot, SlotKind, Parity, IsPacket;
    DataSlotKind(i, l.d, l.f);
  }

  lemma HoldsFec(slots: seq<Slot>, l: Layout, block: seq<Vec>, got: set<nat>, j: nat)
    requires Holds(slots, l, block, got) && j < l.f
    ensures FecAt(slots, l, j).valid <==> FecSlot(j, l.d, l.f) in got
    ensures AreBlocks(block, PACKET_LENGTH)
    ensures FecAt(slots, l, j).valid ==> FecAt(slots, l, j).bytes[..PACKET_LENGTH] == Parity(j, block, PACKET_LENGTH)
  {
    hide FecSlot, SlotKind, Parity;
    FecSlotKind(j, l.d, l.f);
  }

  lemma {:induction false} CountData(slots: seq<Slot>, l: Layout, block: seq<Vec>, got: set<nat>, n: nat)
    requires Holds(slots, l, block, got) && n <= l.d
    ensures MissingData(slots, l, n) == MissingFrom(l, got, n) == |Bad(slots, l, n)|
  {
    hide Holds, DataAt, IsBad, DataSlot;
    if n > 0 {
      CountData(slots, l, block, got, n - 1);
      HoldsData(slots, l, block, got, n - 1);
    }
  }

  lemma {:induction false} CountFec(slots: seq<Slot>, l: Layout, block: seq<Vec>, got: set<nat>, n: nat)
    requires Holds(slots, l, block, got) && n <= l.f
    ensures n - MissingFec(slots, l, n) == AvailableFrom(l, got, n) == |Good(slots, l, n)|
  {
    hide Holds, FecAt, FecSlot;
    if n > 0 {
      CountFec(slots, l, block, got, n - 1);
      HoldsFec(slots, l, block, got, n - 1);
    }
  }

  lemma HoldsShape(slots: seq<Slot>, l: Layout, block: seq<Vec>, got: set<nat>)
    requires Holds(slots, l, block, got)
    ensures l.Ok() && AreSlots(slots, l) && IsBlock(block, l.d) && AreBlocks(block, PACKET_LENGTH)
    ensures Failed(slots, l) <==> !Repairable(l, got)
  {
    hide DataAt, FecAt, MissingData, MissingFec;
    CountData(slots, l, block, got, l.d);
    CountFec(slots, l, block, got, l.f);
    MissingBound(slots, l);
  }

  /** A repairable block is decoded to what was sent. */
  lemma RepairableIsDecoded(slots: seq<Slot>, l: Layout, block: seq<Vec>, got: set<nat>, decoded: seq<Vec>)
    requires Holds(slots, l, block, got) && Repairable(l, got) && IsDecoding(slots, l, decoded)
    ensures forall i :: 0 <= i < l.d ==> PACKET_LENGTH <= |decoded[i]| && decoded[i][..PACKET_LENGTH] == block[i]
  {
    hide DataAt, FecAt, IsBad, Parity, MissingFrom, AvailableFrom, Bad, Good, DataSlot, FecSlot, Holds, Heads;
    HoldsShape(slots, l, block, got);
    CountData(slots, l, block, got, l.d);
    CountFec(slots, l, block, got, l.f);
    DecodedLengths(slots, l, decoded);
    var bad, good, heads := Bad(slots, l, l.d), Good(slots, l, l.f), Heads(decoded);
    assert Erased(slots, l) == bad;
    BadBelow(slots, l, l.d);
    forall i | 0 <= i < l.d && i !in bad ensures heads[i] == block[i] {
      HoldsData(slots, l, block, got, i);
      assert !IsBad(slots, l, i);
      BadUnfold(slots, l, i);
    }
    PairingIsDecodable(slots, l);
    var nos := FecNumbers(slots, l);
    forall k | 0 <= k < |nos| ensures Parity(nos[k], heads, PACKET_LENGTH) == Parity(nos[k], block, PACKET_LENGTH) {
      HoldsFec(slots, l, block, got, nos[k]);
    }
    ParityDetermines(heads, block, PACKET_LENGTH, nos, bad);
  }

  lemma BadUnfold(slots: seq<Slot>, l: Layout, i: nat)
    requires AreSlots(slots, l) && i < l.d
    ensures IsBad(slots, l, i) <==> !(DataAt(slots, l, i).valid && DataAt(slots, l, i).crcCorrect)
  {}

  lemma DecodedLengths(slots: seq<Slot>, l: Layout, decoded: seq<Vec>)
    requires l.Ok() && AreSlots(slots, l) && IsDecoding(slots, l, decoded)
    ensures |decoded| == l.d
    ensures forall i :: 0 <= i < l.d ==> PAYLOAD_HEADER + PACKET_LENGTH <= |decoded[i]|
  {}

  /** A genuine packet delivers its payload, whatever follows it in the buffer. */
  lemma ClampedIsPayload(b: Vec, p: Vec)
    requires PAYLOAD_HEADER + PACKET_LENGTH <= |b| && IsPacket(p) && b[..PACKET_LENGTH] == p
    ensures Clamped(b) == Payload(p)
  {
    hide Index;
    forall i | 0 <= i < PACKET_LENGTH ensures b[i] == p[i] {
      assert b[..PACKET_LENGTH][i] == b[i];
    }
    var n := Length32(p);
    assert Length32(b) == n;
    assert b[PAYLOAD_HEADER..PAYLOAD_HEADER + n] == b[..PACKET_LENGTH][PAYLOAD_HEADER..PAYLOAD_HEADER + n];
  }

  /** Whatever is delivered of packet `i` is its payload. */
  lemma EmittedIsPayload(slots: seq<Slot>, l: Layout, block: seq<Vec>, got: set<nat>, decoded: seq<Vec>, i: nat)
    requires Holds(slots, l, block, got) && IsDecoding(slots, l, decoded) && i < l.d
    requires Repairable(l, got) || DataSlot(i, l.d, l.f) in got
    ensures |decoded| == l.d && PAYLOAD_HEADER + PACKET_LENGTH <= |decoded[i]|
    ensures IsBlock(block, l.d) && Clamped(decoded[i]) == Payload(block[i])
  {
    hide Holds, IsDecoding, DataAt, Clamped, Payload, IsPacket, DataSlot, Repairable;
    HoldsShape(slots, l, block, got);
    DecodedLengths(slots, l, decoded);
    HoldsData(slots, l, block, got, i);
    if Repairable(l, got) {
      RepairableIsDecoded(slots, l, block, got, decoded);
    } else {
      GoodIsKept(slots, l, decoded, i);
    }
    ClampedIsPayload(decoded[i], block[i]);
  }

  lemma {:induction false} EmissionIsPayloads(slots: seq<Slot>, l: Layout, block: seq<Vec>, got: set<nat>,
                                              decoded: seq<Vec>, n: nat)
    requires Holds(slots, l, block, got) && IsDecoding(slots, l, decoded) && n <= l.d
    requires |decoded| == l.d && AreSlots(slots, l) && IsBlock(block, l.d)
    requires forall i :: 0 <= i < l.d ==> PAYLOAD_HEADER + PACKET_LENGTH <= |decoded[i]|
    ensures Emission(slots, l, decoded, n) ==
            if Repairable(l, got) then Payloads(block[..n]) else ReceivedPayloads(block, l, got, n)
  {
    hide Holds, IsDecoding, DataAt, Failed, Clamped, Payload, IsPacket, DataSlot, Repairable, Emission;
    hide Payloads, ReceivedPayloads;
    HoldsShape(slots, l, block, got);
    if n == 0 {
      EmissionAtZero(slots, l, block, got, decoded);
    } else {
      EmissionIsPayloads(slots, l, block, got, decoded, n - 1);
      HoldsData(slots, l, block, got, n - 1);
      if Repairable(l, got) || DataSlot(n - 1, l.d, l.f) in got {
        EmittedIsPayload(slots, l, block, got, decoded, n - 1);
      }
      EmissionAtNext(slots, l, block, got, decoded, n - 1);
    }
  }

  lemma EmissionAtZero(slots: seq<Slot>, l: Layout, block: seq<Vec>, got: set<nat>, decoded: seq<Vec>)
    requires |decoded| == l.d && AreSlots(slots, l) && IsBlock(block, l.d)
    requires forall i :: 0 <= i < l.d ==> PAYLOAD_HEADER + PACKET_LENGTH <= |decoded[i]|
    ensures Emission(slots, l, decoded, 0) == [] == Payloads(block[..0]) == ReceivedPayloads(block, l, got, 0)
  {}

  /** One more packet. */
  lemma EmissionAtNext(slots: seq<Slot>, l: Layout, block: seq<Vec>, got: set<nat>, decoded: seq<Vec>, i: nat)
    requires |decoded| == l.d && AreSlots(slots, l) && IsBlock(block, l.d) && i < l.d
    requires forall i :: 0 <= i < l.d ==> PAYLOAD_HEADER + PACKET_LENGTH <= |decoded[i]|
    ensures Emission(slots, l, decoded, i + 1) == Emission(slots, l, decoded, i) +
            if !Failed(slots, l) || DataAt(slots, l, i).valid then Clamped(decoded[i]) else []
    ensures Payloads(block[..i + 1]) == Payloads(block[..i]) + Payload(block[i])
    ensures ReceivedPayloads(block, l, got, i + 1) == ReceivedPayloads(block, l, got, i) +
            if DataSlot(i, l.d, l.f) in got then Payload(block[i]) else []
  {
    hide DataAt, Failed, Clamped, Payload, IsPacket, DataSlot;
    assert block[..i + 1][..i] == block[..i];
  }

  /** The decoder leaves a good data packet alone. */
  lemma GoodIsKept(slots: seq<Slot>, l: Layout, decoded: seq<Vec>, i: nat)
    requires l.Ok() && AreSlots(slots, l) && IsDecoding(slots, l, decoded) && i < l.d && !IsBad(slots, l, i)
    ensures |decoded| == l.d && decoded[i] == DataAt(slots, l, i).bytes
  {
    hide DataAt, FecAt, IsBad, Parity;
    PairingIsDecodable(slots, l);
  }

  /** A block delivers everything if it is repairable, and otherwise what was received of it. */
  lemma DeliversFlushOutput(slots: seq<Slot>, l: Layout, block: seq<Vec>, got: set<nat>,
                            decoded: seq<Vec>, emitted: Vec)
    requires Holds(slots, l, block, got) && Delivers(slots, l, decoded, emitted)
    ensures IsBlock(block, l.d) && emitted == FlushOutput(block, l, got)
  {
    hide Holds, IsDecoding, Emission, Repairable, Payloads, ReceivedPayloads;
    HoldsShape(slots, l, block, got);
    DecodedLengths(slots, l, decoded);
    EmissionIsPayloads(slots, l, block, got, decoded, l.d);
    assert block[..l.d] == block;
  }

  // ----- a whole run

  /** The receiver and the simple machine agree. */
  ghost predicate Agree(s: RxState, m: Simple, blocks: seq<seq<Vec>>, l: Layout) {
    && IsState(s, l) && AreStreamBlocks(blocks, l.d) && -1 <= m.cur < |blocks|
    && s.blockNum == s.maxBlockNum == m.cur
    && if m.cur == -1 then Cleared(s.slots, l) else Holds(s.slots, l, blocks[m.cur], m.got)
  }

  /** The packet is the one that was sent for this block and place. */
  ghost predicate Genuine(p: Packet, a: Arrival, blocks: seq<seq<Vec>>, l: Layout) {
    && l.Ok() && AreStreamBlocks(blocks, l.d) && a.block < |blocks| && a.slot < l.d + l.f
    && p == Packet(SequenceNumber(a.block, a.slot, l.d, l.f), SlotBytes(blocks[a.block], l.f, a.slot))
  }

  lemma StoredInCleared(slots: seq<Slot>, l: Layout, block: seq<Vec>, n: nat, bytes: Vec)
    requires l.Ok() && Cleared(slots, l) && IsBlock(block, l.d) && n < l.d + l.f
    requires bytes == SlotBytes(block, l.f, n)
    ensures Holds(Stored(slots, n, bytes, true), l, block, {n})
  {
    hide SlotBytes, IsPacket;
    var r := Stored(slots, n, bytes, true);
    assert r[n].bytes[..PACKET_LENGTH] == bytes;
  }

  lemma StoredInHeld(slots: seq<Slot>, l: Layout, block: seq<Vec>, got: set<nat>, n: nat, bytes: Vec)
    requires Holds(slots, l, block, got) && n < l.d + l.f && bytes == SlotBytes(block, l.f, n)
    ensures Holds(Stored(slots, n, bytes, true), l, block, got + {n})
  {
    hide SlotBytes, IsPacket;
    var r := Stored(slots, n, bytes, true);
    assert r[n].bytes[..PACKET_LENGTH] == bytes;
  }

  /** One genuine packet that is not so old as to look like a restart. */
  lemma AgreeStep(s: RxState, e: Event, l: Layout, s': RxState, m: Simple, blocks: seq<seq<Vec>>, a: Arrival)
    requires Agree(s, m, blocks, l) && Step(s, e, l, s') && e.crcOk && Genuine(e.packet, a, blocks, l)
    requires m.cur <= a.block + 128
    ensures Agree(s', Next(m, a, blocks, l), blocks, l)
    ensures Next(m, a, blocks, l).out == m.out + e.emitted
  {
    hide Stored, SlotBytes, Holds, Cleared, FlushOutput, Delivers;
    SequenceNumberSplits(a.block, a.slot, l.d, l.f);
    var block, n := blocks[a.block], a.slot;
    assert IsBlock(block, l.d);
    if a.block > m.cur {
      if m.cur == -1 {
        StoredInCleared(s.slots, l, block, n, e.packet.bytes);
      } else {
        HoldsShape(s.slots, l, blocks[m.cur], m.got);
        DeliversFlushOutput(s.slots, l, blocks[m.cur], m.got, e.decoded, e.emitted);
        StoredInCleared(e.left, l, block, n, e.packet.bytes);
      }
    } else if a.block == m.cur {
      StoredInHeld(s.slots, l, block, m.got, n, e.packet.bytes);
    }
  }

  ghost predicate IsInitial(s: RxState, l: Layout) {
    IsState(s, l) && s.blockNum == -1 && s.maxBlockNum == -1 && Cleared(s.slots, l) && s.counts == Counts(0, 0, 0, 0, 0)
  }

  ghost predicate IsRun(states: seq<RxState>, events: seq<Event>, l: Layout) {
    && |states| == |events| + 1
    && IsInitial(states[0], l)
    && forall i :: 0 <= i < |events| ==> Step(states[i], events[i], l, states[i + 1])
  }

  /** Everything delivered in a run. */
  ghost function Delivered(events: seq<Event>): Vec {
    if |events| == 0 then [] else Delivered(events[..|events| - 1]) + events[|events| - 1].emitted
  }

  /** No packet is so late that it looks like a restart of the sender. */
  ghost predicate NoRestart(arrivals: seq<Arrival>, blocks: seq<seq<Vec>>, l: Layout)
    requires AreArrivals(arrivals, blocks, l)
  {
    forall i :: 0 <= i < |arrivals| ==> Simply(arrivals[..i], blocks, l).cur <= arrivals[i].block + 128
  }

  /** The events are the arrivals, with the packets as they were sent. */
  ghost predicate AllGenuine(events: seq<Event>, arrivals: seq<Arrival>, blocks: seq<seq<Vec>>, l: Layout) {
    && |events| == |arrivals|
    && forall i :: 0 <= i < |events| ==> events[i].crcOk && Genuine(events[i].packet, arrivals[i], blocks, l)
  }

  lemma RunPrefix(states: seq<RxState>, events: seq<Event>, l: Layout)
    requires IsRun(states, events, l) && |events| > 0
    ensures IsRun(states[..|events|], events[..|events| - 1], l)
    ensures Step(states[|events| - 1], events[|events| - 1], l, states[|events|])
  {
    hide Step, IsInitial;
  }

  lemma NoRestartPrefix(arrivals: seq<Arrival>, n: nat, blocks: seq<seq<Vec>>, l: Layout)
    requires AreArrivals(arrivals, blocks, l) && NoRestart(arrivals, blocks, l) && n < |arrivals|
    ensures AreArrivals(arrivals[..n], blocks, l) && NoRestart(arrivals[..n], blocks, l)
    ensures Simply(arrivals[..n], blocks, l).cur <= arrivals[n].block + 128
  {
    hide Simply;
    forall i | 0 <= i < n
      ensures Simply(arrivals[..n][..i], blocks, l).cur <= arrivals[..n][i].block + 128
    {
      assert arrivals[..n][..i] == arrivals[..i];
    }
  }

  /** The receiver refines the simple machine: in every run over a channel that drops, repeats and
      reorders the packets that were sent, the two agree on the block in the buffer and on every byte
      delivered. */
  lemma {:induction false} ReceiverRefinesSimple(states: seq<RxState>, events: seq<Event>, arrivals: seq<Arrival>,
                                                 blocks: seq<seq<Vec>>, l: Layout)
    requires IsRun(states, events, l) && AreArrivals(arrivals, blocks, l)
    requires AllGenuine(events, arrivals, blocks, l) && NoRestart(arrivals, blocks, l)
    ensures Agree(states[|events|], Simply(arrivals, blocks, l), blocks, l)
    ensures Delivered(events) == Simply(arrivals, blocks, l).out
    decreases |events|
  {
    hide Step, Agree, Genuine, Next, NoRestart, Simply;
    if |events| == 0 {
      assert arrivals == [];
      AgreeAtStart(states[0], blocks, l);
      SimplyNothing(blocks, l);
    } else {
      var n := |events| - 1;
      RunPrefix(states, events, l);
      NoRestartPrefix(arrivals, n, blocks, l);
      ReceiverRefinesSimple(states[..n + 1], events[..n], arrivals[..n], blocks, l);
      AgreeStep(states[n], events[n], l, states[n + 1], Simply(arrivals[..n], blocks, l), blocks, arrivals[n]);
      assert arrivals == arrivals[..n] + [arrivals[n]];
      SimplyLast(arrivals, arrivals[..n], arrivals[n], blocks, l);
    }
  }

  lemma AgreeAtStart(s: RxState, blocks: seq<seq<Vec>>, l: Layout)
    requires IsInitial(s, l) && AreStreamBlocks(blocks, l.d)
    ensures Agree(s, Simple(-1, {}, []), blocks, l)
  {}

  // ----- blocks in order

  /** No block is overtaken by a newer one. */
  ghost predicate InOrder(arrivals: seq<Arrival>) {
    forall i, j :: 0 <= i < j < |arrivals| ==> arrivals[i].block <= arrivals[j].block
  }

  /** The places of block `b` that arrive at all. */
  ghost function SlotsOf(arrivals: seq<Arrival>, b: nat): set<nat> {
    set i | 0 <= i < |arrivals| && arrivals[i].block == b :: arrivals[i].slot
  }

  /** What is delivered of the first `n` blocks, given which packets of each arrive. */
  ghost function BlocksOutput(slots: nat -> set<nat>, blocks: seq<seq<Vec>>, l: Layout, n: nat): Vec
    requires AreStreamBlocks(blocks, l.d) && n <= |blocks|
  {
    if n == 0 then []
    else
      BlocksOutput(slots, blocks, l, n - 1) +
      if slots(n - 1) == {} then [] else FlushOutput(blocks[n - 1], l, slots(n - 1))
  }

  lemma SlotsOfNext(arrivals: seq<Arrival>, a: Arrival, b: nat)
    ensures SlotsOf(arrivals + [a], b) == SlotsOf(arrivals, b) + if a.block == b then {a.slot} else {}
  {
    var all := arrivals + [a];
    forall s | s in SlotsOf(arrivals, b) ensures s in SlotsOf(all, b) {
      var i :| 0 <= i < |arrivals| && arrivals[i].block == b && arrivals[i].slot == s;
      assert all[i] == arrivals[i];
    }
    if a.block == b {
      assert all[|arrivals|] == a;
    }
  }

  lemma {:induction false} BlocksOutputSame(s: nat -> set<nat>, t: nat -> set<nat>,
                                            blocks: seq<seq<Vec>>, l: Layout, n: nat)
    requires AreStreamBlocks(blocks, l.d) && n <= |blocks| && forall b: nat :: b < n ==> s(b) == t(b)
    ensures BlocksOutput(s, blocks, l, n) == BlocksOutput(t, blocks, l, n)
  {
    hide FlushOutput;
    if n > 0 {
      BlocksOutputSame(s, t, blocks, l, n - 1);
    }
  }

  /** Nothing of the blocks from `m` to `n` - 1 arrives. */
  lemma {:induction false} BlocksOutputGap(s: nat -> set<nat>, blocks: seq<seq<Vec>>, l: Layout, m: nat, n: nat)
    requires AreStreamBlocks(blocks, l.d) && m <= n <= |blocks| && forall b: nat :: m <= b < n ==> s(b) == {}
    ensures BlocksOutput(s, blocks, l, n) == BlocksOutput(s, blocks, l, m)
  {
    hide FlushOutput;
    if m < n {
      BlocksOutputGap(s, blocks, l, m, n - 1);
    }
  }

  /** What is known after `arrivals` depends only on which packets of each block are among them. */
  ghost predicate IsKnown(m: Simple, arrivals: seq<Arrival>, blocks: seq<seq<Vec>>, l: Layout)
    requires AreStreamBlocks(blocks, l.d)
  {
    && 0 <= m.cur < |blocks| && m.got == SlotsOf(arrivals, m.cur) && m.got != {}
    && m.out == BlocksOutput(b => SlotsOf(arrivals, b), blocks, l, m.cur)
    && forall b: nat :: b > m.cur ==> SlotsOf(arrivals, b) == {}
  }

  lemma KnownAtFirst(a: Arrival, blocks: seq<seq<Vec>>, l: Layout)
    requires AreStreamBlocks(blocks, l.d) && a.block < |blocks|
    ensures IsKnown(Simple(a.block, {a.slot}, []), [a], blocks, l)
  {
    hide FlushOutput, SlotsOf;
    forall b: nat ensures SlotsOf([a], b) == if a.block == b then {a.slot} else {} {
      assert [a] == [] + [a];
      SlotsOfNext([], a, b);
      EmptySlots(b);
    }
    BlocksOutputGap(b => SlotsOf([a], b), blocks, l, 0, a.block);
  }

  lemma KnownInBlock(m: Simple, arrivals: seq<Arrival>, a: Arrival, blocks: seq<seq<Vec>>, l: Layout)
    requires AreStreamBlocks(blocks, l.d) && IsKnown(m, arrivals, blocks, l) && a.block == m.cur
    ensures IsKnown(Next(m, a, blocks, l), arrivals + [a], blocks, l)
  {
    hide FlushOutput, SlotsOf, BlocksOutput;
    forall b: nat ensures SlotsOf(arrivals + [a], b) == SlotsOf(arrivals, b) + if a.block == b then {a.slot} else {} {
      SlotsOfNext(arrivals, a, b);
    }
    BlocksOutputSame(b => SlotsOf(arrivals, b), b => SlotsOf(arrivals + [a], b), blocks, l, m.cur);
  }

  lemma KnownNewBlock(m: Simple, arrivals: seq<Arrival>, a: Arrival, blocks: seq<seq<Vec>>, l: Layout)
    requires AreStreamBlocks(blocks, l.d) && IsKnown(m, arrivals, blocks, l) && m.cur < a.block < |blocks|
    ensures IsKnown(Next(m, a, blocks, l), arrivals + [a], blocks, l)
  {
    hide FlushOutput, SlotsOf, BlocksOutput;
    forall b: nat ensures SlotsOf(arrivals + [a], b) == SlotsOf(arrivals, b) + if a.block == b then {a.slot} else {} {
      SlotsOfNext(arrivals, a, b);
    }
    OneMoreBlock(b => SlotsOf(arrivals, b), blocks, l, m.cur);
    BlocksOutputGap(b => SlotsOf(arrivals, b), blocks, l, m.cur + 1, a.block);
    BlocksOutputSame(b => SlotsOf(arrivals, b), b => SlotsOf(arrivals + [a], b), blocks, l, a.block);
  }

  lemma OneMoreBlock(s: nat -> set<nat>, blocks: seq<seq<Vec>>, l: Layout, n: nat)
    requires AreStreamBlocks(blocks, l.d) && n < |blocks| && s(n) != {}
    ensures BlocksOutput(s, blocks, l, n + 1) == BlocksOutput(s, blocks, l, n) + FlushOutput(blocks[n], l, s(n))
  {
    hide FlushOutput;
  }

  /** When blocks arrive in order, the newest block, what is known of it and what has been delivered
      depend only on which packets of each block arrived. */
  lemma {:induction false} InOrderOutput(arrivals: seq<Arrival>, blocks: seq<seq<Vec>>, l: Layout)
    requires AreArrivals(arrivals, blocks, l) && InOrder(arrivals) && |arrivals| > 0
    ensures var m := Simply(arrivals, blocks, l);
            m.cur == arrivals[|arrivals| - 1].block && IsKnown(m, arrivals, blocks, l)
    decreases |arrivals|
  {
    hide Simply, Next, IsKnown, FlushOutput;
    var n := |arrivals| - 1;
    var before, a := arrivals[..n], arrivals[n];
    assert arrivals == before + [a];
    SimplyLast(arrivals, before, a, blocks, l);
    if n == 0 {
      assert before == [] && [] + [a] == [a];
      SimplyNothing(blocks, l);
      FirstArrival(a, blocks, l);
      KnownAtFirst(a, blocks, l);
    } else {
      InOrderOutput(before, blocks, l);
      assert before[n - 1] == arrivals[n - 1];
      var m := Simply(before, blocks, l);
      NextBlock(m, a, blocks, l);
      if a.block == m.cur {
        KnownInBlock(m, before, a, blocks, l);
      } else {
        KnownNewBlock(m, before, a, blocks, l);
      }
    }
  }

  lemma FirstArrival(a: Arrival, blocks: seq<seq<Vec>>, l: Layout)
    requires AreStreamBlocks(blocks, l.d) && a.block < |blocks|
    ensures Next(Simple(-1, {}, []), a, blocks, l) == Simple(a.block, {a.slot}, [])
  {}

  lemma NextBlock(m: Simple, a: Arrival, blocks: seq<seq<Vec>>, l: Layout)
    requires AreStreamBlocks(blocks, l.d) && m.cur < |blocks|
    ensures Next(m, a, blocks, l).cur == if a.block > m.cur then a.block else m.cur
    ensures a.block < m.cur ==> Next(m, a, blocks, l) == m
  {
    hide FlushOutput;
  }

  lemma EmptySlots(b: nat)
    ensures SlotsOf([], b) == {}
  {}

  lemma InOrderSets(arrivals: seq<Arrival>, others: seq<Arrival>, blocks: seq<seq<Vec>>, l: Layout)
    requires AreArrivals(arrivals, blocks, l) && InOrder(arrivals)
    requires AreArrivals(others, blocks, l) && InOrder(others)
    requires forall b: nat :: SlotsOf(arrivals, b) == SlotsOf(others, b)
    ensures Simply(arrivals, blocks, l) == Simply(others, blocks, l)
  {
    hide SlotsOf, FlushOutput, Next;
    if |arrivals| == 0 || |others| == 0 {
      SameEmptiness(arrivals, others, blocks, l);
    } else {
      InOrderOutput(arrivals, blocks, l);
      InOrderOutput(others, blocks, l);
      var m, o := Simply(arrivals, blocks, l), Simply(others, blocks, l);
      assert m.cur == o.cur;
      BlocksOutputSame(b => SlotsOf(arrivals, b), b => SlotsOf(others, b), blocks, l, m.cur);
    }
  }

  lemma SameEmptiness(arrivals: seq<Arrival>, others: seq<Arrival>, blocks: seq<seq<Vec>>, l: Layout)
    requires forall b: nat :: SlotsOf(arrivals, b) == SlotsOf(others, b)
    ensures |arrivals| == 0 <==> |others| == 0
  {
    if |arrivals| > 0 {
      assert arrivals[0].slot in SlotsOf(others, arrivals[0].block);
    }
    if |others| > 0 {
      assert others[0].slot in SlotsOf(arrivals, others[0].block);
    }
  }

  // ----- packets that come too late

  /** The arrivals without those of a block that had been overtaken by a newer one. */
  ghost function Timely(arrivals: seq<Arrival>, blocks: seq<seq<Vec>>, l: Layout): (t: seq<Arrival>)
    requires AreArrivals(arrivals, blocks, l)
    ensures AreArrivals(t, blocks, l)
  {
    if |arrivals| == 0 then []
    else
      var n := |arrivals| - 1;
      var t := Timely(arrivals[..n], blocks, l);
      if arrivals[n].block >= Simply(arrivals[..n], blocks, l).cur then t + [arrivals[n]] else t
  }

  /** Leaving out the late packets of a run changes nothing, and brings the blocks into order. */
  lemma {:induction false} TimelyIsEnough(arrivals: seq<Arrival>, blocks: seq<seq<Vec>>, l: Layout)
    requires AreArrivals(arrivals, blocks, l)
    ensures Simply(Timely(arrivals, blocks, l), blocks, l) == Simply(arrivals, blocks, l)
    ensures InOrder(Timely(arrivals, blocks, l))
    ensures forall i :: 0 <= i < |Timely(arrivals, blocks, l)| ==>
              Timely(arrivals, blocks, l)[i].block <= Simply(arrivals, blocks, l).cur
    decreases |arrivals|
  {
    hide Next, Simply;
    if |arrivals| > 0 {
      var n := |arrivals| - 1;
      var before, a := arrivals[..n], arrivals[n];
      assert arrivals == before + [a];
      TimelyIsEnough(before, blocks, l);
      SimplyLast(arrivals, before, a, blocks, l);
      var t, m := Timely(before, blocks, l), Simply(before, blocks, l);
      NextBlock(m, a, blocks, l);
      if a.block >= m.cur {
        SimplyLast(t + [a], t, a, blocks, l);
      }
    }
  }

  lemma {:induction false} InOrderIsTimely(arrivals: seq<Arrival>, blocks: seq<seq<Vec>>, l: Layout)
    requires AreArrivals(arrivals, blocks, l) && InOrder(arrivals)
    ensures Timely(arrivals, blocks, l) == arrivals
    decreases |arrivals|
  {
    hide Next;
    if |arrivals| > 0 {
      var n := |arrivals| - 1;
      InOrderIsTimely(arrivals[..n], blocks, l);
      assert arrivals == arrivals[..n] + [arrivals[n]];
      if n > 0 {
        InOrderOutput(arrivals[..n], blocks, l);
        assert arrivals[..n][n - 1] == arrivals[n - 1];
      }
    }
  }

  /** Order, repetition and adapters do not matter, and neither do packets of blocks that have been
      overtaken: two sequences of arrivals with the same timely packets of each block lead to the same
      state and deliver the same bytes. */
  lemma OnlyTheSetMatters(arrivals: seq<Arrival>, others: seq<Arrival>, blocks: seq<seq<Vec>>, l: Layout)
    requires AreArrivals(arrivals, blocks, l) && AreArrivals(others, blocks, l)
    requires forall b: nat :: SlotsOf(Timely(arrivals, blocks, l), b) == SlotsOf(Timely(others, blocks, l), b)
    ensures Simply(arrivals, blocks, l) == Simply(others, blocks, l)
  {
    hide SlotsOf, Simply, Timely;
    TimelyIsEnough(arrivals, blocks, l);
    TimelyIsEnough(others, blocks, l);
    InOrderSets(Timely(arrivals, blocks, l), Timely(others, blocks, l), blocks, l);
  }

  /** The same for the receiver: two runs of it, over any two channels. */
  lemma SameSetsSameBytes(states: seq<RxState>, events: seq<Event>, arrivals: seq<Arrival>,
                          states': seq<RxState>, events': seq<Event>, arrivals': seq<Arrival>,
                          blocks: seq<seq<Vec>>, l: Layout)
    requires IsRun(states, events, l) && AreArrivals(arrivals, blocks, l)
    requires AllGenuine(events, arrivals, blocks, l) && NoRestart(arrivals, blocks, l)
    requires IsRun(states', events', l) && AreArrivals(arrivals', blocks, l)
    requires AllGenuine(events', arrivals', blocks, l) && NoRestart(arrivals', blocks, l)
    requires forall b: nat :: SlotsOf(Timely(arrivals, blocks, l), b) == SlotsOf(Timely(arrivals', blocks, l), b)
    ensures Delivered(events) == Delivered(events')
    ensures states[|events|].blockNum == states'[|events'|].blockNum
  {
    hide SlotsOf, Simply, Timely, IsRun, AllGenuine, NoRestart, Delivered;
    ReceiverRefinesSimple(states, events, arrivals, blocks, l);
    ReceiverRefinesSimple(states', events', arrivals', blocks, l);
    OnlyTheSetMatters(arrivals, arrivals', blocks, l);
  }

  /** What the receiver delivers in any run: of each block before the newest one, what its timely
      packets give. */
  lemma RunDelivers(states: seq<RxState>, events: seq<Event>, arrivals: seq<Arrival>, blocks: seq<seq<Vec>>, l: Layout)
    requires IsRun(states, events, l) && AreArrivals(arrivals, blocks, l)
    requires AllGenuine(events, arrivals, blocks, l) && NoRestart(arrivals, blocks, l)
    ensures var n, t := Simply(arrivals, blocks, l).cur, Timely(arrivals, blocks, l);
            Delivered(events) == if n < 0 then [] else BlocksOutput(b => SlotsOf(t, b), blocks, l, n)
  {
    hide SlotsOf, IsRun, AllGenuine, NoRestart, Delivered, BlocksOutput, Next;
    ReceiverRefinesSimple(states, events, arrivals, blocks, l);
    TimelyIsEnough(arrivals, blocks, l);
    var t := Timely(arrivals, blocks, l);
    if |t| > 0 {
      InOrderOutput(t, blocks, l);
    }
  }

  // ----- every block repairable

  lemma {:induction false} NothingArrived(l: Layout, n: nat, m: nat)
    requires n <= l.d && m <= l.f
    ensures MissingFrom(l, {}, n) == n && AvailableFrom(l, {}, m) == 0
    decreases n + m
  {
    if n > 0 {
      NothingArrived(l, n - 1, m);
    } else if m > 0 {
      NothingArrived(l, n, m - 1);
    }
  }

  lemma {:induction false} RepairableOutput(slots: nat -> set<nat>, blocks: seq<seq<Vec>>, l: Layout, n: nat)
    requires l.Ok() && AreStreamBlocks(blocks, l.d) && n <= |blocks|
    requires forall b: nat :: b < n ==> Repairable(l, slots(b))
    ensures BlocksOutput(slots, blocks, l, n) == Stream(blocks[..n], l.d)
  {
    hide Payloads, ReceivedPayloads;
    if n > 0 {
      RepairableOutput(slots, blocks, l, n - 1);
      NothingArrived(l, l.d, l.f);
      assert blocks[..n][..n - 1] == blocks[..n - 1];
    }
  }

  lemma InOrderIsNoRestart(arrivals: seq<Arrival>, blocks: seq<seq<Vec>>, l: Layout)
    requires AreArrivals(arrivals, blocks, l) && InOrder(arrivals)
    ensures NoRestart(arrivals, blocks, l)
  {
    hide Next;
    forall i | 0 <= i < |arrivals| ensures Simply(arrivals[..i], blocks, l).cur <= arrivals[i].block {
      if i > 0 {
        InOrderOutput(arrivals[..i], blocks, l);
        assert arrivals[..i][i - 1] == arrivals[i - 1];
      }
    }
  }

  /** Every block before the newest can be repaired from what arrives of it before a newer one. */
  ghost predicate AllRepairable(arrivals: seq<Arrival>, blocks: seq<seq<Vec>>, l: Layout)
    requires AreArrivals(arrivals, blocks, l)
  {
    forall b: nat :: b < Simply(arrivals, blocks, l).cur ==> Repairable(l, SlotsOf(Timely(arrivals, blocks, l), b))
  }

  /** If every block before the newest can be repaired from what arrives of it in time, then exactly the
      bytes of those blocks are delivered. */
  lemma RepairableRunDeliversStream(states: seq<RxState>, events: seq<Event>, arrivals: seq<Arrival>,
                                    blocks: seq<seq<Vec>>, l: Layout)
    requires IsRun(states, events, l) && AreArrivals(arrivals, blocks, l)
    requires AllGenuine(events, arrivals, blocks, l) && NoRestart(arrivals, blocks, l)
    requires AllRepairable(arrivals, blocks, l)
    ensures var n := Simply(arrivals, blocks, l).cur;
            Delivered(events) == if n < 0 then [] else Stream(blocks[..n], l.d)
  {
    hide IsRun, NoRestart, Delivered, SlotsOf, Repairable, Stream, Timely, BlocksOutput;
    RunDelivers(states, events, arrivals, blocks, l);
    var n, t := Simply(arrivals, blocks, l).cur, Timely(arrivals, blocks, l);
    if n >= 0 {
      assert l.Ok() by {
        assert |arrivals| > 0;
        assert Genuine(events[0].packet, arrivals[0], blocks, l);
        GenuineLayout(events[0].packet, arrivals[0], blocks, l);
      }
      RepairableOutput(b => SlotsOf(t, b), blocks, l, n);
    }
  }

  lemma GenuineLayout(p: Packet, a: Arrival, blocks: seq<seq<Vec>>, l: Layout)
    requires Genuine(p, a, blocks, l)
    ensures l.Ok()
  {}

  // ----- packets that change nothing

  /** A packet of an older block, inside the restart window, changes nothing, and neither does a second
      copy of a packet that arrived. */
  lemma LateOrRepeatedChangesNothing(s: RxState, e: Event, l: Layout, s': RxState)
    requires Step(s, e, l, s') && s.blockNum == s.maxBlockNum
    requires s.maxBlockNum <= BlockOf(e.packet, l) + 128
    requires BlockOf(e.packet, l) < s.maxBlockNum
      || (BlockOf(e.packet, l) == s.maxBlockNum && s.slots[SlotOf(e.packet, l)].crcCorrect)
    ensures s' == s && e.emitted == []
  {
    hide Leaves;
  }
}
