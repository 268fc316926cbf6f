/** The receiving end as a state machine over values: what one packet does to the block in the buffer
    and to the output. */
module Reception {
  import opened LinearAlgebra
  import opened Erasure
  import opened Interleave
  import opened Machine
  import opened Packets

  /** One place of the block buffer. */
  datatype Slot = Slot(valid: bool, crcCorrect: bool, len: nat, bytes: Vec)

  /** The counters of the receiver, 32 bits each. */
  datatype Counts = Counts(restarts: nat, blocks: nat, damaged: nat, received: nat, lost: nat)

  datatype RxState = RxState(blockNum: int, maxBlockNum: int, slots: seq<Slot>, counts: Counts)

  /** The size of a block: `d` data and `f` FEC packets. */
  datatype Layout = Layout(d: nat, f: nat) {
    ghost predicate Ok() { 0 < d <= 32 && f <= 32 }
  }

  /** Room for a packet and for what a length field in it may claim. */
  ghost predicate AreSlots(slots: seq<Slot>, l: Layout) {
    && |slots| == l.d + l.f
    && forall s :: 0 <= s < |slots| ==> PAYLOAD_HEADER + PACKET_LENGTH <= |slots[s].bytes|
  }

  ghost function DataAt(slots: seq<Slot>, l: Layout, i: nat): Slot
    requires AreSlots(slots, l) && i < l.d
  {
    DataSlotKind(i, l.d, l.f);
    slots[DataSlot(i, l.d, l.f)]
  }

  ghost function FecAt(slots: seq<Slot>, l: Layout, j: nat): Slot
    requires AreSlots(slots, l) && j < l.f
  {
    FecSlotKind(j, l.d, l.f);
    slots[FecSlot(j, l.d, l.f)]
  }

  /** A data packet that is missing or damaged. */
  ghost predicate IsBad(slots: seq<Slot>, l: Layout, i: nat)
    requires AreSlots(slots, l) && i < l.d
  {
    !(DataAt(slots, l, i).valid && DataAt(slots, l, i).crcCorrect)
  }

  /** The bad data packets below `n`, in order. */
  ghost function Bad(slots: seq<Slot>, l: Layout, n: nat): seq<nat>
    requires AreSlots(slots, l) && n <= l.d
  {
    if n == 0 then [] else Bad(slots, l, n - 1) + if IsBad(slots, l, n - 1) then [n - 1] else []
  }

  /** The FEC packets below `n` that were received, in order. */
  ghost function Good(slots: seq<Slot>, l: Layout, n: nat): seq<nat>
    requires AreSlots(slots, l) && n <= l.f
  {
    if n == 0 then [] else Good(slots, l, n - 1) + if FecAt(slots, l, n - 1).valid then [n - 1] else []
  }

  ghost function MissingData(slots: seq<Slot>, l: Layout, n: nat): nat
    requires AreSlots(slots, l) && n <= l.d
  {
    if n == 0 then 0 else MissingData(slots, l, n - 1) + if DataAt(slots, l, n - 1).valid then 0 else 1
  }

  ghost function MissingFec(slots: seq<Slot>, l: Layout, n: nat): nat
    requires AreSlots(slots, l) && n <= l.f
  {
    if n == 0 then 0 else MissingFec(slots, l, n - 1) + if FecAt(slots, l, n - 1).valid then 0 else 1
  }

  /** As many bad data packets as there are FEC packets to replace them. */
  ghost function Pairs(slots: seq<Slot>, l: Layout): nat
    requires AreSlots(slots, l)
  {
    Min(|Bad(slots, l, l.d)|, |Good(slots, l, l.f)|)
  }

  ghost function Erased(slots: seq<Slot>, l: Layout): seq<nat>
    requires AreSlots(slots, l)
  {
    Bad(slots, l, l.d)[..Pairs(slots, l)]
  }

  ghost function FecNumbers(slots: seq<Slot>, l: Layout): seq<nat>
    requires AreSlots(slots, l)
  {
    Good(slots, l, l.f)[..Pairs(slots, l)]
  }

  ghost predicate Failed(slots: seq<Slot>, l: Layout)
    requires AreSlots(slots, l)
  {
    MissingData(slots, l, l.d) > l.f - MissingFec(slots, l, l.f)
  }

  // ----- the pairing

  lemma {:induction false} BadBelow(slots: seq<Slot>, l: Layout, n: nat)
    requires AreSlots(slots, l) && n <= l.d
    ensures Ascending(Bad(slots, l, n)) && AllBelow(Bad(slots, l, n), n)
    ensures forall i :: 0 <= i < n ==> (i in Bad(slots, l, n) <==> IsBad(slots, l, i))
  {
    if n > 0 {
      BadBelow(slots, l, n - 1);
    }
  }

  lemma {:induction false} GoodBelow(slots: seq<Slot>, l: Layout, n: nat)
    requires AreSlots(slots, l) && n <= l.f
    ensures Ascending(Good(slots, l, n)) && AllBelow(Good(slots, l, n), n)
    ensures forall j :: 0 <= j < n ==> (j in Good(slots, l, n) <==> FecAt(slots, l, j).valid)
    ensures |Good(slots, l, n)| == n - MissingFec(slots, l, n)
  {
    if n > 0 {
      GoodBelow(slots, l, n - 1);
    }
  }

  /** Whatever was received, the pairing is something the decoder accepts: the erased indices ascend,
      the FEC numbers are distinct, and there is one for each. */
  lemma PairingIsDecodable(slots: seq<Slot>, l: Layout)
    requires l.Ok() && AreSlots(slots, l)
    ensures Decodable(l.d, FecNumbers(slots, l), Erased(slots, l))
    ensures Ascending(FecNumbers(slots, l)) && AllBelow(FecNumbers(slots, l), l.f)
    ensures forall k :: 0 <= k < |Erased(slots, l)| ==> IsBad(slots, l, Erased(slots, l)[k])
    ensures forall k :: 0 <= k < |FecNumbers(slots, l)| ==> FecAt(slots, l, FecNumbers(slots, l)[k]).valid
  {
    hide IsBad, FecAt, DataAt;
    var bad, good := Bad(slots, l, l.d), Good(slots, l, l.f);
    BadBelow(slots, l, l.d);
    GoodBelow(slots, l, l.f);
    forall k | 0 <= k < |bad| ensures IsBad(slots, l, bad[k]) {
      assert bad[k] in bad;
    }
    forall k | 0 <= k < |good| ensures FecAt(slots, l, good[k]).valid {
      assert good[k] in good;
    }
  }

  ghost function Elements(s: seq<nat>): set<nat> {
    if |s| == 0 then {} else Elements(s[..|s| - 1]) + {s[|s| - 1]}
  }

  lemma {:induction false} ElementsAre(s: seq<nat>, x: nat)
    ensures x in Elements(s) <==> x in s
  {
    if |s| > 0 {
      var n := |s| - 1;
      ElementsAre(s[..n], x);
      assert s == s[..n] + [s[n]];
    }
  }

  lemma {:induction false} AscendingIsSet(s: seq<nat>)
    requires Ascending(s)
    ensures |Elements(s)| == |s|
    ensures forall x: nat :: x in Elements(s) <==> x in s
  {
    forall x: nat ensures x in Elements(s) <==> x in s {
      ElementsAre(s, x);
    }
    if |s| > 0 {
      var n := |s| - 1;
      AscendingIsSet(s[..n]);
      assert s[n] !in s[..n];
    }
  }

  /** The data packets that are missing or damaged, and the FEC packets that were received, as sets. */
  ghost function BadSet(slots: seq<Slot>, l: Layout): set<nat>
    requires AreSlots(slots, l)
  {
    set i: nat | i < l.d && !(DataAt(slots, l, i).valid && DataAt(slots, l, i).crcCorrect)
  }

  ghost function GoodSet(slots: seq<Slot>, l: Layout): set<nat>
    requires AreSlots(slots, l)
  {
    set j: nat | j < l.f && FecAt(slots, l, j).valid
  }

  lemma SetsOfBadAndGood(slots: seq<Slot>, l: Layout)
    requires AreSlots(slots, l)
    ensures |BadSet(slots, l)| == |Bad(slots, l, l.d)| && |GoodSet(slots, l)| == |Good(slots, l, l.f)|
    ensures forall i: nat :: i in BadSet(slots, l) <==> i in Bad(slots, l, l.d)
    ensures forall j: nat :: j in GoodSet(slots, l) <==> j in Good(slots, l, l.f)
  {
    hide FecAt, DataAt, Bad, Good;
    var bad, good := Bad(slots, l, l.d), Good(slots, l, l.f);
    BadBelow(slots, l, l.d);
    GoodBelow(slots, l, l.f);
    AscendingIsSet(bad);
    AscendingIsSet(good);
    assert BadSet(slots, l) == Elements(bad);
    assert GoodSet(slots, l) == Elements(good);
  }

  /** Also when a block cannot be repaired, as many data packets are replaced as there are FEC packets
      for them: the first ones, by the first FEC packets. */
  lemma AsManyPairsAsPossible(slots: seq<Slot>, l: Layout)
    requires AreSlots(slots, l)
    ensures var bad, good := BadSet(slots, l), GoodSet(slots, l);
            && |Erased(slots, l)| == |FecNumbers(slots, l)| == (if |bad| < |good| then |bad| else |good|)
            && (forall i :: i in bad && i !in Erased(slots, l) ==>
                  forall k :: 0 <= k < |Erased(slots, l)| ==> Erased(slots, l)[k] < i)
            && (forall j :: j in good && j !in FecNumbers(slots, l) ==>
                  forall k :: 0 <= k < |FecNumbers(slots, l)| ==> FecNumbers(slots, l)[k] < j)
  {
    hide BadSet, GoodSet, Bad, Good;
    var bad, good := Bad(slots, l, l.d), Good(slots, l, l.f);
    SetsOfBadAndGood(slots, l);
    BadBelow(slots, l, l.d);
    GoodBelow(slots, l, l.f);
    RestIsLarger(bad, Pairs(slots, l));
    RestIsLarger(good, Pairs(slots, l));
  }

  lemma RestIsLarger(s: seq<nat>, n: nat)
    requires Ascending(s) && n <= |s|
    ensures forall x :: x in s && x !in s[..n] ==> forall k :: 0 <= k < n ==> s[..n][k] < x
  {
    forall x | x in s ensures x !in s[..n] ==> forall k :: 0 <= k < n ==> s[..n][k] < x {
      var i :| 0 <= i < |s| && s[i] == x;
      assert i < n ==> s[..n][i] == x;
    }
  }

  // ----- one packet

  /** What the decoder may make of the data packets: it leaves all but the erased ones alone, and
      satisfies the parity equations of the FEC packets it used. */
  ghost predicate IsDecoding(slots: seq<Slot>, l: Layout, decoded: seq<Vec>)
    requires l.Ok() && AreSlots(slots, l)
  {
    && |decoded| == l.d
    && (forall i :: 0 <= i < l.d ==> |decoded[i]| == |DataAt(slots, l, i).bytes|)
    && (forall i :: 0 <= i < l.d && i !in Erased(slots, l) ==> decoded[i] == DataAt(slots, l, i).bytes)
    && (PairingIsDecodable(slots, l);
        forall k :: 0 <= k < |FecNumbers(slots, l)| ==>
          Parity(FecNumbers(slots, l)[k], Heads(decoded), PACKET_LENGTH) ==
          FecAt(slots, l, FecNumbers(slots, l)[k]).bytes[..PACKET_LENGTH])
  }

  /** The part of each buffer that the code is computed over. */
  ghost function Heads(b: seq<Vec>): (h: seq<Vec>)
    requires forall i :: 0 <= i < |b| ==> PACKET_LENGTH <= |b[i]|
    ensures |h| == |b| && AreBlocks(h, PACKET_LENGTH)
    ensures forall i :: 0 <= i < |b| ==> h[i] == b[i][..PACKET_LENGTH]
  {
    seq(|b|, i requires 0 <= i < |b| => b[i][..PACKET_LENGTH])
  }

  /** The bytes of one packet that are delivered: a length field that is too large is cut off. */
  ghost function Clamped(b: Vec): Vec
    requires PAYLOAD_HEADER + PACKET_LENGTH <= |b|
  {
    b[PAYLOAD_HEADER..PAYLOAD_HEADER + Min(Length32(b), PACKET_LENGTH)]
  }

  /** The bytes delivered for the first `n` data packets: of all packets if the block could be
      repaired, and otherwise of those that were received. */
  ghost function Emission(slots: seq<Slot>, l: Layout, decoded: seq<Vec>, n: nat): Vec
    requires AreSlots(slots, l) && n <= l.d == |decoded|
    requires forall i :: 0 <= i < l.d ==> PAYLOAD_HEADER + PACKET_LENGTH <= |decoded[i]|
  {
    if n == 0 then []
    else
      Emission(slots, l, decoded, n - 1) +
      if !Failed(slots, l) || DataAt(slots, l, n - 1).valid then Clamped(decoded[n - 1]) else []
  }

  /** An empty buffer; what its bytes are is of no consequence. */
  ghost predicate Cleared(slots: seq<Slot>, l: Layout) {
    && AreSlots(slots, l)
    && forall s :: 0 <= s < |slots| ==> !slots[s].valid && !slots[s].crcCorrect && slots[s].len == 0
  }

  function Count32(n: nat): nat { n % UINT32 }

  /** The counters after a block with these slots has been delivered. */
  ghost function CountsAfter(c: Counts, slots: seq<Slot>, l: Layout): Counts
    requires AreSlots(slots, l)
  {
    var missing := MissingData(slots, l, l.d) + MissingFec(slots, l, l.f);
    Counts(c.restarts,
           Count32(c.blocks + 1),
           if Failed(slots, l) then Count32(c.damaged + 1) else c.damaged,
           MissingBound(slots, l);
           Count32(c.received + l.d + l.f - missing),
           Count32(c.lost + missing))
  }

  lemma {:induction false} MissingDataBound(slots: seq<Slot>, l: Layout, n: nat)
    requires AreSlots(slots, l) && n <= l.d
    ensures MissingData(slots, l, n) <= n
  {
    if n > 0 {
      MissingDataBound(slots, l, n - 1);
    }
  }

  lemma MissingBound(slots: seq<Slot>, l: Layout)
    requires AreSlots(slots, l)
    ensures MissingData(slots, l, l.d) <= l.d
    ensures MissingFec(slots, l, l.f) <= l.f
  {
    MissingDataBound(slots, l, l.d);
    GoodBelow(slots, l, l.f);
  }

  /** Stores a packet in its place, unless the place already has a correct packet. */
  ghost function Stored(slots: seq<Slot>, s: nat, bytes: Vec, crcOk: bool): (r: seq<Slot>)
    requires s < |slots| && |bytes| <= |slots[s].bytes|
    ensures |r| == |slots|
  {
    if slots[s].crcCorrect then slots
    else slots[s := Slot(true, crcOk, |bytes|, bytes + slots[s].bytes[|bytes|..])]
  }

  /** What arrives: a packet, whether its checksum was right, and, if it starts a new block, what the
      decoder made of the old one, the bytes delivered and the buffer left behind. */
  datatype Event = Event(packet: Packet, crcOk: bool, decoded: seq<Vec>, emitted: Vec, left: seq<Slot>)

  ghost predicate IsState(s: RxState, l: Layout) {
    l.Ok() && AreSlots(s.slots, l)
  }

  function BlockOf(p: Packet, l: Layout): nat
    requires 0 < l.d
  {
    p.sequenceNumber / (l.d + l.f)
  }

  function SlotOf(p: Packet, l: Layout): (s: nat)
    requires 0 < l.d
    ensures s < l.d + l.f
  {
    p.sequenceNumber % (l.d + l.f)
  }

  /** A packet that is so far behind the newest block counts as a restart of the sender. */
  ghost predicate IsRestart(s: RxState, p: Packet, l: Layout)
    requires 0 < l.d
  {
    BlockOf(p, l) + 128 < s.maxBlockNum
  }

  ghost predicate StartsBlock(s: RxState, e: Event, l: Layout)
    requires 0 < l.d
  {
    (BlockOf(e.packet, l) > s.maxBlockNum || IsRestart(s, e.packet, l)) && e.crcOk
  }

  /** The buffer has room for the packet. */
  ghost predicate Fits(slots: seq<Slot>, p: Packet, l: Layout)
    requires 0 < l.d && |slots| == l.d + l.f
  {
    |p.bytes| <= |slots[SlotOf(p, l)].bytes|
  }

  /** The old block is given up on a restart, and otherwise delivered; at the start there is none. */
  ghost predicate Leaves(s: RxState, e: Event, l: Layout, counts: Counts)
    requires IsState(s, l)
  {
    if IsRestart(s, e.packet, l) then
      && e.emitted == [] && counts == Counts(Count32(s.counts.restarts + 1), 0, 0, 0, 0)
      && Cleared(e.left, l)
    else if s.blockNum == -1 then
      e.emitted == [] && counts == s.counts && e.left == s.slots
    else
      && Delivers(s.slots, l, e.decoded, e.emitted)
      && counts == CountsAfter(s.counts, s.slots, l)
      && Cleared(e.left, l)
  }

  /** The bytes delivered for a block with these slots. */
  ghost predicate Delivers(slots: seq<Slot>, l: Layout, decoded: seq<Vec>, emitted: Vec)
    requires l.Ok() && AreSlots(slots, l)
  {
    && IsDecoding(slots, l, decoded)
    && (forall i :: 0 <= i < l.d ==> PAYLOAD_HEADER + PACKET_LENGTH <= |decoded[i]|)
    && emitted == Emission(slots, l, decoded, l.d)
  }

  ghost predicate Step(s: RxState, e: Event, l: Layout, s': RxState) {
    && IsState(s, l) && IsState(s', l)
    && Fits(s.slots, e.packet, l)
    && var b, n := BlockOf(e.packet, l), SlotOf(e.packet, l);
       if StartsBlock(s, e, l) then
         && Leaves(s, e, l, s'.counts)
         && s'.blockNum == b && s'.maxBlockNum == b
         && Fits(e.left, e.packet, l)
         && s'.slots == Stored(e.left, n, e.packet.bytes, e.crcOk)
       else
         && e.emitted == []
         && s' == s.(slots := if s.blockNum == b then Stored(s.slots, n, e.packet.bytes, e.crcOk) else s.slots)
  }

  /** The state between starting a block and storing the packet. */
  ghost predicate Opened(s: RxState, e: Event, l: Layout, mid: RxState)
    requires IsState(s, l)
  {
    if StartsBlock(s, e, l) then
      && Leaves(s, e, l, mid.counts)
      && mid.blockNum == BlockOf(e.packet, l) && mid.maxBlockNum == BlockOf(e.packet, l) && mid.slots == e.left
    else
      e.emitted == [] && mid == s
  }

  lemma OpenedBy(s: RxState, e: Event, l: Layout, mid: RxState)
    requires IsState(s, l)
    requires !StartsBlock(s, e, l) ==> e.emitted == [] && mid == s
    requires StartsBlock(s, e, l) ==>
      && Leaves(s, e, l, mid.counts) && mid.blockNum == BlockOf(e.packet, l)
      && mid.maxBlockNum == BlockOf(e.packet, l) && mid.slots == e.left
    ensures Opened(s, e, l, mid)
  {
    hide Leaves, StartsBlock;
  }

  lemma StepInTwo(s: RxState, e: Event, l: Layout, mid: RxState, s': RxState)
    requires IsState(s, l) && IsState(mid, l) && IsState(s', l)
    requires Fits(s.slots, e.packet, l) && Fits(mid.slots, e.packet, l) && Opened(s, e, l, mid)
    requires s' == mid.(slots := if mid.blockNum == BlockOf(e.packet, l)
                                 then Stored(mid.slots, SlotOf(e.packet, l), e.packet.bytes, e.crcOk) else mid.slots)
    ensures Step(s, e, l, s')
  {
    hide Leaves, Stored;
  }
}
