/** What the counters of the receiver say, in terms of the packets that arrived. */
module Counters {
  import opened LinearAlgebra
  import opened Erasure
  import opened Interleave
  import opened Packets
  import opened Reception
  import opened Delivery

  // ----- counting the packets of a block

  /** The places of a block that hold a packet. */
  ghost function Held(slots: seq<Slot>): (held: set<nat>) {
    set s: nat | s < |slots| && slots[s].valid
  }

  /** The data packets below `n` among the places `got`. */
  ghost function DataAmong(l: Layout, got: set<nat>, n: nat): set<nat>
    requires n <= l.d
  {
    set i | 0 <= i < n && DataSlot(i, l.d, l.f) in got :: DataSlot(i, l.d, l.f)
  }

  ghost function FecAmong(l: Layout, got: set<nat>, n: nat): set<nat>
    requires n <= l.f
  {
    set j | 0 <= j < n && FecSlot(j, l.d, l.f) in got :: FecSlot(j, l.d, l.f)
  }

  lemma {:induction false} DataCounted(l: Layout, got: set<nat>, n: nat)
    requires n <= l.d
    ensures MissingFrom(l, got, n) + |DataAmong(l, got, n)| == n
  {
    hide DataSlot, SlotKind;
    if n > 0 {
      DataCounted(l, got, n - 1);
      var s, before := DataSlot(n - 1, l.d, l.f), DataAmong(l, got, n - 1);
      SlotsAreBijective(l.d, l.f);
      assert s !in before;
      assert DataAmong(l, got, n) == before + if s in got then {s} else {};
    } else {
      assert DataAmong(l, got, n) == {};
    }
  }

  lemma {:induction false} FecCounted(l: Layout, got: set<nat>, n: nat)
    requires n <= l.f
    ensures AvailableFrom(l, got, n) == |FecAmong(l, got, n)|
  {
    hide FecSlot, SlotKind;
    if n > 0 {
      FecCounted(l, got, n - 1);
      var s, before := FecSlot(n - 1, l.d, l.f), FecAmong(l, got, n - 1);
      SlotsAreBijective(l.d, l.f);
      assert s !in before;
      assert FecAmong(l, got, n) == before + if s in got then {s} else {};
    } else {
      assert FecAmong(l, got, n) == {};
    }
  }

  /** Every packet is a data or a FEC packet. */
  lemma AllCounted(l: Layout, got: set<nat>)
    requires forall s :: s in got ==> s < l.d + l.f
    ensures |got| + MissingFrom(l, got, l.d) == l.d + AvailableFrom(l, got, l.f)
  {
    hide DataSlot, FecSlot, SlotKind;
    DataCounted(l, got, l.d);
    FecCounted(l, got, l.f);
    SlotsAreBijective(l.d, l.f);
    var data, fec := DataAmong(l, got, l.d), FecAmong(l, got, l.f);
    assert data !! fec;
    forall s | s in got ensures s in data + fec {
      match SlotKind(s, l.d, l.f)
      case Data(i) => assert DataSlot(i, l.d, l.f) == s;
      case FecBlock(j) => assert FecSlot(j, l.d, l.f) == s;
    }
    assert got == data + fec;
  }

  /** A block can be repaired exactly if as many of its packets arrive, of either kind, as it has data
      packets. */
  lemma RepairableIsEnough(l: Layout, got: set<nat>)
    requires forall s :: s in got ==> s < l.d + l.f
    ensures Repairable(l, got) <==> |got| >= l.d
  {
    hide MissingFrom, AvailableFrom;
    AllCounted(l, got);
  }

  lemma {:induction false} MissingIsNotHeld(slots: seq<Slot>, l: Layout, n: nat, m: nat)
    requires AreSlots(slots, l) && n <= l.d && m <= l.f
    ensures MissingData(slots, l, n) == MissingFrom(l, Held(slots), n)
    ensures m - MissingFec(slots, l, m) == AvailableFrom(l, Held(slots), m)
    decreases n + m
  {
    hide DataSlot, FecSlot;
    if n > 0 {
      MissingIsNotHeld(slots, l, n - 1, m);
      DataSlotKind(n - 1, l.d, l.f);
    }
    if m > 0 {
      MissingIsNotHeld(slots, l, n, m - 1);
      FecSlotKind(m - 1, l.d, l.f);
    }
  }

  /** What a block adds to the counters: one block, one damaged block if fewer packets arrived than it
      has data packets, the packets that arrived, and the others as lost. */
  lemma CountsOfBlock(c: Counts, slots: seq<Slot>, l: Layout)
    requires AreSlots(slots, l)
    ensures |Held(slots)| <= l.d + l.f
    ensures Failed(slots, l) <==> |Held(slots)| < l.d
    ensures CountsAfter(c, slots, l).restarts == c.restarts
    ensures CountsAfter(c, slots, l).blocks == (c.blocks + 1) % 0x1_0000_0000
    ensures CountsAfter(c, slots, l).damaged ==
            if |Held(slots)| < l.d then (c.damaged + 1) % 0x1_0000_0000 else c.damaged
    ensures CountsAfter(c, slots, l).received == (c.received + |Held(slots)|) % 0x1_0000_0000
    ensures CountsAfter(c, slots, l).lost == (c.lost + (l.d + l.f - |Held(slots)|)) % 0x1_0000_0000
  {
    hide MissingData, MissingFec, MissingFrom, AvailableFrom;
    MissingIsNotHeld(slots, l, l.d, l.f);
    AllCounted(l, Held(slots));
    MissingBound(slots, l);
  }

  // ----- what is delivered of a block

  /** The bytes behind the length field; a length of more than 1024 is cut off. */
  ghost function Piece(b: Vec): Vec
    requires PAYLOAD_HEADER + PACKET_LENGTH <= |b|
  {
    b[4..4 + if Length32(b) > 1024 then 1024 else Length32(b)]
  }

  /** One after another, those of the packets `which`, of the first `n`. */
  ghost function Pieces(b: seq<Vec>, which: set<nat>, n: nat): Vec
    requires n <= |b| && forall i :: 0 <= i < |b| ==> PAYLOAD_HEADER + PACKET_LENGTH <= |b[i]|
  {
    if n == 0 then [] else Pieces(b, which, n - 1) + if n - 1 in which then Piece(b[n - 1]) else []
  }

  /** The data packets to deliver: all of them if enough packets arrived, and otherwise those that did. */
  ghost function ToDeliver(slots: seq<Slot>, l: Layout): set<nat> {
    set i: nat | i < l.d && (|Held(slots)| >= l.d || DataSlot(i, l.d, l.f) in Held(slots))
  }

  lemma {:induction false} EmissionIsPieces(slots: seq<Slot>, l: Layout, decoded: seq<Vec>, n: nat)
    requires AreSlots(slots, l) && n <= l.d == |decoded|
    requires forall i :: 0 <= i < l.d ==> PAYLOAD_HEADER + PACKET_LENGTH <= |decoded[i]|
    ensures Emission(slots, l, decoded, n) == Pieces(decoded, ToDeliver(slots, l), n)
  {
    hide Failed, Clamped, Piece, ToDeliver, DataAt;
    if n > 0 {
      EmissionIsPieces(slots, l, decoded, n - 1);
      IsToDeliver(slots, l, n - 1);
      ClampedIsPiece(decoded[n - 1]);
    }
  }

  lemma ClampedIsPiece(b: Vec)
    requires PAYLOAD_HEADER + PACKET_LENGTH <= |b|
    ensures Clamped(b) == Piece(b)
  {
    hide Length32;
  }

  lemma IsToDeliver(slots: seq<Slot>, l: Layout, i: nat)
    requires AreSlots(slots, l) && i < l.d
    ensures i in ToDeliver(slots, l) <==> !Failed(slots, l) || DataAt(slots, l, i).valid
  {
    hide Failed, DataSlot;
    CountsOfBlock(Counts(0, 0, 0, 0, 0), slots, l);
    DataSlotKind(i, l.d, l.f);
  }

  /** Whatever the packets of a block contain. */
  lemma WhatIsDelivered(slots: seq<Slot>, l: Layout, decoded: seq<Vec>, emitted: Vec)
    requires l.Ok() && AreSlots(slots, l) && Delivers(slots, l, decoded, emitted)
    ensures |decoded| == l.d && forall i :: 0 <= i < l.d ==> PAYLOAD_HEADER + PACKET_LENGTH <= |decoded[i]|
    ensures emitted == Pieces(decoded, ToDeliver(slots, l), l.d)
  {
    hide Emission, Pieces, ToDeliver;
    DecodedLengths(slots, l, decoded);
    EmissionIsPieces(slots, l, decoded, l.d);
  }

  /** What is in the buffer is of the block: correct data packets, and FEC packets. */
  ghost predicate Carries(slots: seq<Slot>, l: Layout, block: seq<Vec>)
    requires AreSlots(slots, l) && IsBlock(block, l.d) && AreBlocks(block, PACKET_LENGTH) && l.Ok()
  {
    && (forall i :: 0 <= i < l.d && DataAt(slots, l, i).valid && DataAt(slots, l, i).crcCorrect ==>
          DataAt(slots, l, i).bytes[..PACKET_LENGTH] == block[i])
    && (forall j :: 0 <= j < l.f && FecAt(slots, l, j).valid ==>
          FecAt(slots, l, j).bytes[..PACKET_LENGTH] == Parity(j, block, PACKET_LENGTH))
  }

  /** Data packets with wrong checksums, whatever they contain, are repaired like missing ones, if there
      are as many FEC packets. */
  lemma DamagedIsDecoded(slots: seq<Slot>, l: Layout, block: seq<Vec>, decoded: seq<Vec>)
    requires l.Ok() && AreSlots(slots, l) && IsBlock(block, l.d) && AreBlocks(block, PACKET_LENGTH)
    requires Carries(slots, l, block) && |BadSet(slots, l)| <= |GoodSet(slots, l)| && IsDecoding(slots, l, decoded)
    ensures |decoded| == l.d
    ensures forall i :: 0 <= i < l.d ==> PACKET_LENGTH <= |decoded[i]| && decoded[i][..PACKET_LENGTH] == block[i]
  {
    hide DataAt, FecAt, Parity, Heads;
    DecodedLengths(slots, l, decoded);
    AsManyPairsAsPossible(slots, l);
    PairingIsDecodable(slots, l);
    BadBelow(slots, l, l.d);
    var erased, nos, heads := Erased(slots, l), FecNumbers(slots, l), Heads(decoded);
    ErasedIsBad(slots, l);
    forall i | 0 <= i < l.d && i !in erased ensures heads[i] == block[i] {
      assert i !in BadSet(slots, l);
    }
    ParityDetermines(heads, block, PACKET_LENGTH, nos, erased);
  }

  /** All bad packets are replaced. */
  lemma ErasedIsBad(slots: seq<Slot>, l: Layout)
    requires l.Ok() && AreSlots(slots, l) && |BadSet(slots, l)| <= |GoodSet(slots, l)|
    ensures forall i :: i in BadSet(slots, l) <==> i in Erased(slots, l)
  {
    hide BadSet, GoodSet, Bad, Good;
    SetsOfBadAndGood(slots, l);
    assert Erased(slots, l) == Bad(slots, l, l.d);
  }

  // ----- a whole run, whatever arrives

  /** The numbers of the blocks delivered since the last restart. */
  ghost function Flushed(states: seq<RxState>, events: seq<Event>, l: Layout): (log: seq<int>)
    requires 0 < l.d && |states| == |events| + 1
  {
    if |events| == 0 then []
    else
      var n := |events| - 1;
      var log := Flushed(states[..n + 1], events[..n], l);
      if !StartsBlock(states[n], events[n], l) then log
      else if IsRestart(states[n], events[n].packet, l) then []
      else if states[n].blockNum == -1 then log
      else log + [states[n].blockNum]
  }

  /** How many of those had fewer packets than a block has data packets. */
  ghost function DamagedBlocks(states: seq<RxState>, events: seq<Event>, l: Layout): (damaged: nat)
    requires 0 < l.d && |states| == |events| + 1 && forall i :: 0 <= i < |states| ==> AreSlots(states[i].slots, l)
  {
    if |events| == 0 then 0
    else
      var n := |events| - 1;
      var damaged := DamagedBlocks(states[..n + 1], events[..n], l);
      if !StartsBlock(states[n], events[n], l) then damaged
      else if IsRestart(states[n], events[n].packet, l) then 0
      else if states[n].blockNum == -1 then damaged
      else if |Held(states[n].slots)| < l.d then damaged + 1
      else damaged
  }

  /** How many packets of those arrived. */
  ghost function ReceivedPackets(states: seq<RxState>, events: seq<Event>, l: Layout): (received: nat)
    requires 0 < l.d && |states| == |events| + 1 && forall i :: 0 <= i < |states| ==> AreSlots(states[i].slots, l)
  {
    if |events| == 0 then 0
    else
      var n := |events| - 1;
      var received := ReceivedPackets(states[..n + 1], events[..n], l);
      if !StartsBlock(states[n], events[n], l) then received
      else if IsRestart(states[n], events[n].packet, l) then 0
      else if states[n].blockNum == -1 then received
      else received + |Held(states[n].slots)|
  }

  /** The packets of `n` blocks. */
  function Places(l: Layout, n: nat): nat { n * (l.d + l.f) }

  ghost predicate CountersTell(c: Counts, l: Layout, flushed: nat, damaged: nat, received: nat) {
    && damaged <= flushed && received <= Places(l, flushed)
    && c.blocks == flushed % 0x1_0000_0000
    && c.damaged == damaged % 0x1_0000_0000
    && c.received == received % 0x1_0000_0000
    && c.lost == (Places(l, flushed) - received) % 0x1_0000_0000
  }

  lemma CountersAfterFlush(c: Counts, slots: seq<Slot>, l: Layout, flushed: nat, damaged: nat, received: nat)
    requires AreSlots(slots, l) && CountersTell(c, l, flushed, damaged, received)
    ensures var held := |Held(slots)|;
            CountersTell(CountsAfter(c, slots, l), l, flushed + 1,
                         if held < l.d then damaged + 1 else damaged, received + held)
  {
    hide CountsAfter, Places;
    CountsOfBlock(c, slots, l);
    NextPlaces(l, flushed);
    AddedModulo(flushed, 1);
    AddedModulo(damaged, 1);
    AddedModulo(received, |Held(slots)|);
    AddedModulo(Places(l, flushed) - received, l.d + l.f - |Held(slots)|);
  }

  lemma AddedModulo(a: int, b: nat)
    ensures (a % 0x1_0000_0000 + b) % 0x1_0000_0000 == (a + b) % 0x1_0000_0000
  {}

  lemma NextPlaces(l: Layout, n: nat)
    ensures Places(l, n + 1) == Places(l, n) + (l.d + l.f)
  {}

  ghost predicate RunFacts(states: seq<RxState>, events: seq<Event>, l: Layout)
    requires 0 < l.d && |states| == |events| + 1 && forall i :: 0 <= i < |states| ==> AreSlots(states[i].slots, l)
  {
    var s, log := states[|events|], Flushed(states, events, l);
    && s.blockNum == s.maxBlockNum && (s.blockNum == -1 ==> log == [])
    && CountersTell(s.counts, l, |log|, DamagedBlocks(states, events, l), ReceivedPackets(states, events, l))
    && (forall i, j :: 0 <= i < j < |log| ==> log[i] < log[j])
    && (forall i :: 0 <= i < |log| ==> log[i] < s.blockNum)
  }

  lemma RunShape(states: seq<RxState>, events: seq<Event>, l: Layout)
    requires IsRun(states, events, l)
    ensures 0 < l.d && |states| == |events| + 1 && forall i :: 0 <= i < |states| ==> AreSlots(states[i].slots, l)
  {
    forall i | 0 <= i < |states| ensures AreSlots(states[i].slots, l) {
      if i < |events| {
        assert Step(states[i], events[i], l, states[i + 1]);
      } else if i > 0 {
        assert Step(states[i - 1], events[i - 1], l, states[i]);
      }
    }
  }

  lemma RunFactsStep(states: seq<RxState>, events: seq<Event>, l: Layout)
    requires 0 < l.d && |states| == |events| + 1 && |events| > 0
    requires forall i :: 0 <= i < |states| ==> AreSlots(states[i].slots, l)
    requires RunFacts(states[..|events|], events[..|events| - 1], l)
    requires Step(states[|events| - 1], events[|events| - 1], l, states[|events|])
    ensures RunFacts(states, events, l)
  {
    hide CountersTell, CountsAfter, Failed, Delivers, Stored, Cleared, Held;
    var n := |events| - 1;
    var s := states[..n + 1][n];
    if StartsBlock(s, events[n], l) {
      if IsRestart(s, events[n].packet, l) {
        NothingCounted(s.counts, l);
      } else if s.blockNum != -1 {
        CountersAfterFlush(s.counts, s.slots, l, |Flushed(states[..n + 1], events[..n], l)|,
                           DamagedBlocks(states[..n + 1], events[..n], l),
                           ReceivedPackets(states[..n + 1], events[..n], l));
      }
    }
  }

  lemma NothingCounted(c: Counts, l: Layout)
    ensures CountersTell(Counts(Count32(c.restarts + 1), 0, 0, 0, 0), l, 0, 0, 0)
    ensures CountersTell(Counts(0, 0, 0, 0, 0), l, 0, 0, 0)
  {}

  /** In every reachable state, whatever the channel does and whatever the packets contain: the buffer
      holds the newest block; since the last restart of the sender each block was delivered at most
      once, in ascending order; and the counters tell how many there were, how many of them were
      damaged, how many of their packets had arrived, and how many had not. */
  lemma {:induction false} RunInvariant(states: seq<RxState>, events: seq<Event>, l: Layout)
    requires IsRun(states, events, l)
    ensures 0 < l.d && |states| == |events| + 1 && forall i :: 0 <= i < |states| ==> AreSlots(states[i].slots, l)
    ensures RunFacts(states, events, l)
    decreases |events|
  {
    hide Step, CountersTell, IsInitial, RunFacts;
    RunShape(states, events, l);
    if |events| == 0 {
      RunFactsStart(states, events, l);
    } else {
      RunPrefix(states, events, l);
      RunInvariant(states[..|events|], events[..|events| - 1], l);
      RunFactsStep(states, events, l);
    }
  }

  lemma RunFactsStart(states: seq<RxState>, events: seq<Event>, l: Layout)
    requires |events| == 0 && |states| == 1 && IsInitial(states[0], l)
    ensures RunFacts(states, events, l)
  {
    NothingCounted(states[0].counts, l);
  }

  // ----- a run of genuine packets

  /** How many of the first `n` blocks have any packet among `slots`. */
  ghost function BlocksHeard(slots: nat -> set<nat>, n: nat): nat {
    if n == 0 then 0 else BlocksHeard(slots, n - 1) + if slots(n - 1) == {} then 0 else 1
  }

  /** How many of those have fewer than `d`. */
  ghost function BlocksShort(slots: nat -> set<nat>, d: nat, n: nat): nat {
    if n == 0 then 0 else BlocksShort(slots, d, n - 1) + if 0 < |slots(n - 1)| < d then 1 else 0
  }

  ghost function PacketsHeard(slots: nat -> set<nat>, n: nat): nat {
    if n == 0 then 0 else PacketsHeard(slots, n - 1) + |slots(n - 1)|
  }

  /** How many places of those blocks, with `size` places each, have no packet. */
  ghost function PacketsMissed(slots: nat -> set<nat>, size: nat, n: nat): int {
    if n == 0 then 0
    else PacketsMissed(slots, size, n - 1) + if slots(n - 1) == {} then 0 else size - |slots(n - 1)|
  }

  ghost predicate CountersSay(c: Counts, slots: nat -> set<nat>, l: Layout, n: nat) {
    && c.restarts == 0
    && c.blocks == BlocksHeard(slots, n) % 0x1_0000_0000
    && c.damaged == BlocksShort(slots, l.d, n) % 0x1_0000_0000
    && c.received == PacketsHeard(slots, n) % 0x1_0000_0000
    && c.lost == PacketsMissed(slots, l.d + l.f, n) % 0x1_0000_0000
  }

  lemma {:induction false} SaySame(c: Counts, s: nat -> set<nat>, t: nat -> set<nat>, l: Layout, n: nat)
    requires forall b: nat :: b < n ==> s(b) == t(b)
    ensures CountersSay(c, s, l, n) <==> CountersSay(c, t, l, n)
  {
    TalliesSame(s, t, l, n);
  }

  lemma {:induction false} TalliesSame(s: nat -> set<nat>, t: nat -> set<nat>, l: Layout, n: nat)
    requires forall b: nat :: b < n ==> s(b) == t(b)
    ensures BlocksHeard(s, n) == BlocksHeard(t, n) && BlocksShort(s, l.d, n) == BlocksShort(t, l.d, n)
    ensures PacketsHeard(s, n) == PacketsHeard(t, n)
    ensures PacketsMissed(s, l.d + l.f, n) == PacketsMissed(t, l.d + l.f, n)
  {
    if n > 0 {
      TalliesSame(s, t, l, n - 1);
    }
  }

  /** Nothing arrives of the blocks from `m` to `n` - 1. */
  lemma {:induction false} SayGap(c: Counts, s: nat -> set<nat>, l: Layout, m: nat, n: nat)
    requires m <= n && CountersSay(c, s, l, m) && forall b: nat :: m <= b < n ==> s(b) == {}
    ensures CountersSay(c, s, l, n)
  {
    if m < n {
      SayGap(c, s, l, m, n - 1);
    }
  }

  /** One more block is delivered. */
  lemma SayNext(c: Counts, slots: seq<Slot>, s: nat -> set<nat>, l: Layout, n: nat)
    requires AreSlots(slots, l) && CountersSay(c, s, l, n) && s(n) == Held(slots) != {}
    ensures CountersSay(CountsAfter(c, slots, l), s, l, n + 1)
  {
    hide CountsAfter, Held;
    CountsOfBlock(c, slots, l);
    AddedModulo(BlocksHeard(s, n), 1);
    AddedModulo(BlocksShort(s, l.d, n), 1);
    AddedModulo(PacketsHeard(s, n), |Held(slots)|);
    AddedModulo(PacketsMissed(s, l.d + l.f, n), l.d + l.f - |Held(slots)|);
  }

  lemma HoldsIsHeld(slots: seq<Slot>, l: Layout, block: seq<Vec>, got: set<nat>)
    requires Holds(slots, l, block, got) && forall s :: s in got ==> s < l.d + l.f
    ensures Held(slots) == got
  {}

  /** What is counted after `arrivals`: the blocks before the newest, by their timely packets. */
  ghost predicate RunSays(c: Counts, arrivals: seq<Arrival>, blocks: seq<seq<Vec>>, l: Layout)
    requires AreArrivals(arrivals, blocks, l)
  {
    var n, t := Simply(arrivals, blocks, l).cur, Timely(arrivals, blocks, l);
    CountersSay(c, (b: nat) => SlotsOf(t, b), l, if n < 0 then 0 else n)
  }

  lemma TimelyLast(arrivals: seq<Arrival>, before: seq<Arrival>, a: Arrival, blocks: seq<seq<Vec>>, l: Layout)
    requires AreArrivals(arrivals, blocks, l) && arrivals == before + [a]
    ensures AreArrivals(before, blocks, l)
    ensures var t := Timely(before, blocks, l);
            Timely(arrivals, blocks, l) == if a.block >= Simply(before, blocks, l).cur then t + [a] else t
  {
    hide Simply;
    assert arrivals[..|arrivals| - 1] == before;
  }

  /** The counters change only when a block is delivered. */
  lemma CountsOfStep(s: RxState, e: Event, l: Layout, s': RxState, m: Simple, blocks: seq<seq<Vec>>, a: Arrival)
    requires Agree(s, m, blocks, l) && Step(s, e, l, s') && e.crcOk && Genuine(e.packet, a, blocks, l)
    requires m.cur <= a.block + 128
    ensures AreSlots(s.slots, l)
    ensures s'.counts == if a.block > m.cur >= 0 then CountsAfter(s.counts, s.slots, l) else s.counts
    ensures m.cur >= 0 ==> Holds(s.slots, l, blocks[m.cur], m.got)
  {
    hide CountsAfter, Stored, Holds, Cleared, Delivers, SlotBytes;
    SequenceNumberSplits(a.block, a.slot, l.d, l.f);
  }

  /** What is known of the timely packets of the newest block. */
  lemma TimelyIsKnown(arrivals: seq<Arrival>, blocks: seq<seq<Vec>>, l: Layout)
    requires AreArrivals(arrivals, blocks, l)
    ensures var m, t := Simply(arrivals, blocks, l), Timely(arrivals, blocks, l);
            && (m.cur < 0 ==> t == [])
            && (m.cur >= 0 ==> m.got == SlotsOf(t, m.cur) != {} && forall b: nat :: b > m.cur ==> SlotsOf(t, b) == {})
  {
    hide SlotsOf, Next, BlocksOutput;
    TimelyIsEnough(arrivals, blocks, l);
    var t := Timely(arrivals, blocks, l);
    if |t| > 0 {
      InOrderOutput(t, blocks, l);
    }
  }

  lemma SlotsAreInside(arrivals: seq<Arrival>, blocks: seq<seq<Vec>>, l: Layout, b: nat)
    requires AreArrivals(arrivals, blocks, l)
    ensures forall s :: s in SlotsOf(arrivals, b) ==> s < l.d + l.f
  {}

  lemma RunSaysStep(s: RxState, e: Event, l: Layout, s': RxState, arrivals: seq<Arrival>, before: seq<Arrival>,
                    a: Arrival, blocks: seq<seq<Vec>>)
    requires AreArrivals(arrivals, blocks, l) && arrivals == before + [a] && AreArrivals(before, blocks, l)
    requires Agree(s, Simply(before, blocks, l), blocks, l) && Step(s, e, l, s') && e.crcOk
    requires Genuine(e.packet, a, blocks, l) && Simply(before, blocks, l).cur <= a.block + 128
    requires RunSays(s.counts, before, blocks, l)
    ensures RunSays(s'.counts, arrivals, blocks, l)
  {
    hide Simply, Timely, SlotsOf, Next, Agree, Step, Genuine, Holds, CountsAfter, Held, CountersSay;
    var m, t := Simply(before, blocks, l), Timely(before, blocks, l);
    SimplyLast(arrivals, before, a, blocks, l);
    TimelyLast(arrivals, before, a, blocks, l);
    NextBlock(m, a, blocks, l);
    CountsOfStep(s, e, l, s', m, blocks, a);
    TimelyIsKnown(before, blocks, l);
    var u := Timely(arrivals, blocks, l);
    var known: nat -> set<nat>, told: nat -> set<nat> := (b: nat) => SlotsOf(t, b), (b: nat) => SlotsOf(u, b);
    if a.block >= m.cur {
      forall b: nat ensures SlotsOf(u, b) == SlotsOf(t, b) + if a.block == b then {a.slot} else {} {
        SlotsOfNext(t, a, b);
      }
    }
    if m.cur < 0 {
      forall b: nat ensures known(b) == {} {
        EmptySlots(b);
      }
      SayGap(s'.counts, known, l, 0, a.block);
      SaySame(s'.counts, known, told, l, a.block);
    } else if a.block > m.cur {
      SlotsAreInside(t, blocks, l, m.cur);
      HoldsIsHeld(s.slots, l, blocks[m.cur], m.got);
      SayNext(s.counts, s.slots, known, l, m.cur);
      SayGap(s'.counts, known, l, m.cur + 1, a.block);
      SaySame(s'.counts, known, told, l, a.block);
    } else {
      SaySame(s'.counts, known, told, l, m.cur);
    }
  }

  /** Over any channel, inside the restart window: the counters tell how many blocks before the newest
      were heard of, how many of them with fewer packets than a block has data packets, how many of
      their packets came before a newer block, and how many did not. */
  lemma {:induction false} RunCounts(states: seq<RxState>, events: seq<Event>, arrivals: seq<Arrival>,
                                     blocks: seq<seq<Vec>>, l: Layout)
    requires IsRun(states, events, l) && AreArrivals(arrivals, blocks, l)
    requires AllGenuine(events, arrivals, blocks, l) && NoRestart(arrivals, blocks, l)
    ensures RunSays(states[|events|].counts, arrivals, blocks, l)
    decreases |events|
  {
    hide Step, Genuine, NoRestart, Simply, Agree, RunSays;
    if |events| == 0 {
      assert arrivals == [];
      SaysNothing(states[0], blocks, l);
    } else {
      var n := |events| - 1;
      RunPrefix(states, events, l);
      NoRestartPrefix(arrivals, n, blocks, l);
      RunCounts(states[..n + 1], events[..n], arrivals[..n], blocks, l);
      ReceiverRefinesSimple(states[..n + 1], events[..n], arrivals[..n], blocks, l);
      assert arrivals == arrivals[..n] + [arrivals[n]];
      RunSaysStep(states[n], events[n], l, states[n + 1], arrivals, arrivals[..n], arrivals[n], blocks);
    }
  }

  lemma SaysNothing(s: RxState, blocks: seq<seq<Vec>>, l: Layout)
    requires IsInitial(s, l) && AreArrivals([], blocks, l)
    ensures RunSays(s.counts, [], blocks, l)
  {}
}
