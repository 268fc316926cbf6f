/** From the bytes given to the sender to the bytes delivered by the receiver. */
module EndToEnd {
  import opened Arithmetic
  import opened LinearAlgebra
  import opened Erasure
  import opened Interleave
  import opened Machine
  import opened Packets
  import opened Reception
  import opened Delivery
  import opened Sender

  /** The sequence numbers of all packets of `n` blocks fit in 32 bits. */
  ghost predicate NoWrap(n: nat, d: nat, f: nat) {
    SequenceNumber(n, 0, d, f) <= UINT32
  }

  /** The number under which the sender sends slot `s` of block `n`. */
  function SentNumber(n: nat, s: nat, d: nat, f: nat): nat { (SequenceNumber(n, 0, d, f) % UINT32 + s) % UINT32 }

  /** The receiver takes all packets of block `n` for packets of one block. */
  predicate StaysTogether(n: nat, d: nat, f: nat)
    requires d + f > 0
  {
    forall s: nat :: s < d + f ==> SentNumber(n, s, d, f) / (d + f) == SentNumber(n, 0, d, f) / (d + f)
  }

  /** The quotients of the numbers from `first` on, which wrap at 2^32. */
  lemma QuotientOverWrap(first: nat, t: nat)
    requires 0 < t <= UINT32 / 2 && first < UINT32 < first + t
    ensures (first + (UINT32 - first)) % UINT32 / t == 0 && first % UINT32 / t > 0
  {
    DivideMultiple(0, 0, t);
    assert first % UINT32 == first;
    AtLeastOne(first, t);
  }

  lemma AtLeastOne(x: nat, t: nat)
    requires 0 < t <= x
    ensures x / t > 0
  {}

  lemma QuotientOverMultiple(first: nat, t: nat)
    requires 0 < t && first + t <= UINT32 && first % t > 0
    ensures (first + (t - 1)) % UINT32 / t == first % UINT32 / t + 1
  {
    var q, r := first / t, first % t;
    SmallModulo(first);
    SmallModulo(first + (t - 1));
    assert first == q * t + r;
    assert first + (t - 1) == (q + 1) * t + (r - 1);
    DivideMultiple(q + 1, r - 1, t);
  }

  lemma QuotientWithin(first: nat, t: nat, s: nat)
    requires s < t && first + t <= UINT32 && first % t == 0
    ensures (first + s) % UINT32 / t == first / t
  {
    SmallModulo(first + s);
    assert first == first / t * t;
    DivideMultiple(first / t, s, t);
  }

  /** A block falls apart if it runs over 2^32, and also if its first number is not a multiple of the
      size of a block, as after a wrap. */
  lemma StaysTogetherExactly(n: nat, d: nat, f: nat)
    requires 0 < d + f <= 2 * MAX_BLOCKS
    ensures var first := SentNumber(n, 0, d, f);
            StaysTogether(n, d, f) <==> first % (d + f) == 0 && first + d + f <= UINT32
  {
    var t, first := d + f, SentNumber(n, 0, d, f);
    Wrapped(n, 0, d, f);
    if first + t > UINT32 {
      QuotientOverWrap(first, t);
      Wrapped(n, UINT32 - first, d, f);
      hide SentNumber;
      assert SentNumber(n, UINT32 - first, d, f) / t != first / t;
    } else if first % t > 0 {
      QuotientOverMultiple(first, t);
      Wrapped(n, t - 1, d, f);
      hide SentNumber;
      assert SentNumber(n, t - 1, d, f) / t != first / t;
    } else {
      hide SentNumber;
      forall s: nat | s < t ensures SentNumber(n, s, d, f) / t == first / t {
        QuotientWithin(first, t, s);
        Wrapped(n, s, d, f);
      }
    }
  }

  lemma Wrapped(n: nat, s: nat, d: nat, f: nat)
    ensures var first := SentNumber(n, 0, d, f);
            first < UINT32 && first % UINT32 == first && SentNumber(n, s, d, f) == (first + s) % UINT32
  {
    var x := SequenceNumber(n, 0, d, f);
    hide SequenceNumber;
    SmallModulo(x % UINT32);
  }

  /** So, unless the size of a block divides 2^32, `NoWrap` says exactly that no block falls apart. */
  lemma NoWrapExactly(total: nat, d: nat, f: nat)
    requires 0 < d + f <= 2 * MAX_BLOCKS && UINT32 % (d + f) != 0
    ensures NoWrap(total, d, f) <==> forall n: nat :: n < total ==> StaysTogether(n, d, f)
  {
    hide StaysTogether;
    var t := d + f;
    if total * t <= UINT32 {
      forall n: nat | n < total ensures StaysTogether(n, d, f) {
        MultipleBelow(n, total, t);
        SmallModulo(n * t);
        DivideMultiple(n, 0, t);
        StaysTogetherExactly(n, d, f);
      }
    } else {
      var n := UINT32 / t;
      assert n * t + UINT32 % t == UINT32;
      if total <= n {
        Multiples(total, n, t);
      }
      SmallModulo(n * t);
      StaysTogetherExactly(n, d, f);
    }
  }

  lemma Multiples(a: nat, b: nat, t: nat)
    requires a <= b
    ensures a * t <= b * t
  {}

  /** With 8 data and 4 FEC packets, block 357913941 is the first to fall apart: its packets from the fifth
      on look like those of block 0.  The next block begins in the middle of a block. */
  lemma BlockAtWrap()
    ensures SentNumber(357913941, 3, 8, 4) / 12 == 357913941 && SentNumber(357913941, 4, 8, 4) / 12 == 0
    ensures !StaysTogether(357913941, 8, 4) && NoWrap(357913941, 8, 4) && !NoWrap(357913942, 8, 4)
    ensures SentNumber(357913942, 0, 8, 4) == 8 && !StaysTogether(357913942, 8, 4)
  {
    hide StaysTogether;
    StaysTogetherExactly(357913941, 8, 4);
    StaysTogetherExactly(357913942, 8, 4);
  }

  // ----- what is sent

  /** The packet in slot `s` of a block is sent exactly if it is not withheld. */
  lemma {:induction false} TransmissionMembers(seqNr: nat, p: seq<Vec>, f: nat, skip: int, n: nat, q: Packet)
    requires ArePackets(p) && |p| <= MAX_BLOCKS && f <= MAX_BLOCKS && n <= |p| + f
    ensures q in Transmission(seqNr, p, f, skip, n) <==>
            exists s: nat :: s < n && !Withheld(SlotKind(s, |p|, f), skip) &&
                             q == Packet((seqNr + s) % UINT32, SlotBytes(p, f, s))
  {
    hide Withheld, SlotKind, SlotBytes, IsPacket;
    if n > 0 {
      TransmissionMembers(seqNr, p, f, skip, n - 1, q);
      if !Withheld(SlotKind(n - 1, |p|, f), skip) && q == Packet((seqNr + n - 1) % UINT32, SlotBytes(p, f, n - 1)) {
        assert q == Packet((seqNr + (n - 1)) % UINT32, SlotBytes(p, f, n - 1));
      }
    }
  }

  /** `a` is the block and the slot of the packet `q`. */
  ghost predicate SentAs(q: Packet, a: Arrival, blocks: seq<seq<Vec>>, skips: seq<int>, d: nat, f: nat)
    requires AreStreamBlocks(blocks, d) && |skips| == |blocks| && 0 < d <= MAX_BLOCKS && f <= MAX_BLOCKS
  {
    && a.block < |blocks| && a.slot < d + f
    && !Withheld(SlotKind(a.slot, d, f), skips[a.block])
    && q == Packet(SequenceNumber(a.block, a.slot, d, f), SlotBytes(blocks[a.block], f, a.slot))
  }

  lemma NumberOfSlot(n: nat, s: nat, total: nat, d: nat, f: nat)
    requires s < d + f && n < total && NoWrap(total, d, f)
    ensures SentNumber(n, s, d, f) == SequenceNumber(n, s, d, f)
  {
    hide SequenceNumber, NoWrap;
    NumberBelow(n, s, total, d, f);
    SmallModulo(SequenceNumber(n, 0, d, f));
    SmallModulo(SequenceNumber(n, s, d, f));
  }

  lemma NumberBelow(n: nat, s: nat, total: nat, d: nat, f: nat)
    requires s < d + f && n < total && NoWrap(total, d, f)
    ensures SequenceNumber(n, 0, d, f) + s == SequenceNumber(n, s, d, f) < UINT32
  {
    MultipleBelow(n, total, d + f);
  }

  lemma SmallModulo(x: nat)
    requires x < UINT32
    ensures x % UINT32 == x
  {}

  /** The packets on the air are exactly those of the finished blocks that are not withheld, each under
      the sequence number of its block and slot. */
  lemma {:induction false} SentMembers(blocks: seq<seq<Vec>>, skips: seq<int>, d: nat, f: nat, total: nat, q: Packet)
    requires AreStreamBlocks(blocks, d) && |skips| == |blocks| && 0 < d <= MAX_BLOCKS && f <= MAX_BLOCKS
    requires |blocks| <= total && NoWrap(total, d, f)
    ensures q in AllSent(blocks, skips, d, f) <==> exists a :: SentAs(q, a, blocks, skips, d, f)
    decreases |blocks|
  {
    hide Withheld, SlotKind, SlotBytes, IsPacket, NoWrap, Transmission, SequenceNumber;
    if |blocks| > 0 {
      var n := |blocks| - 1;
      var before, earlier := blocks[..n], skips[..n];
      SentMembers(before, earlier, d, f, total, q);
      var seqNr := SequenceNumber(n, 0, d, f) % UINT32;
      TransmissionMembers(seqNr, blocks[n], f, skips[n], d + f, q);
      if q in AllSent(before, earlier, d, f) {
        var a :| SentAs(q, a, before, earlier, d, f);
        assert SentAs(q, a, blocks, skips, d, f);
      }
      if q in Transmission(seqNr, blocks[n], f, skips[n], d + f) {
        var s: nat :| s < d + f && !Withheld(SlotKind(s, d, f), skips[n]) &&
                      q == Packet((seqNr + s) % UINT32, SlotBytes(blocks[n], f, s));
        NumberOfSlot(n, s, total, d, f);
        assert SentAs(q, Arrival(n, s), blocks, skips, d, f);
      }
      if exists a :: SentAs(q, a, blocks, skips, d, f) {
        var a :| SentAs(q, a, blocks, skips, d, f);
        if a.block < n {
          assert SentAs(q, a, before, earlier, d, f);
        } else {
          NumberOfSlot(n, a.slot, total, d, f);
        }
      }
    }
  }

  // ----- from end to end

  /** Whatever a channel delivers of what was sent is a sequence of genuine arrivals. */
  lemma SentIsGenuine(blocks: seq<seq<Vec>>, skips: seq<int>, l: Layout, events: seq<Event>)
    returns (arrivals: seq<Arrival>)
    requires l.Ok() && AreStreamBlocks(blocks, l.d) && |skips| == |blocks| && NoWrap(|blocks|, l.d, l.f)
    requires forall i :: 0 <= i < |events| ==> events[i].crcOk && events[i].packet in AllSent(blocks, skips, l.d, l.f)
    ensures AreArrivals(arrivals, blocks, l) && AllGenuine(events, arrivals, blocks, l)
  {
    hide AllSent, SlotBytes, SequenceNumber, NoWrap, Withheld, IsPacket;
    arrivals := [];
    for i := 0 to |events|
      invariant |arrivals| == i
      invariant forall k :: 0 <= k < i ==>
        && arrivals[k].block < |blocks| && arrivals[k].slot < l.d + l.f
        && Genuine(events[k].packet, arrivals[k], blocks, l)
    {
      SentMembers(blocks, skips, l.d, l.f, |blocks|, events[i].packet);
      var a :| SentAs(events[i].packet, a, blocks, skips, l.d, l.f);
      arrivals := arrivals + [a];
    }
  }

  lemma {:induction false} StreamPrefix(blocks: seq<seq<Vec>>, d: nat, n: nat)
    requires AreStreamBlocks(blocks, d) && n <= |blocks|
    ensures Stream(blocks[..n], d) <= Stream(blocks, d)
    decreases |blocks|
  {
    hide Payloads, IsPacket;
    if n == |blocks| {
      assert blocks[..n] == blocks;
    } else {
      var m := |blocks| - 1;
      StreamPrefix(blocks[..m], d, n);
      assert blocks[..m][..n] == blocks[..n];
    }
  }

  /** The stream arrives.  The channel may lose packets, repeat them, change their order and mix blocks,
      as long as no packet is so late that it looks like a restart of the sender.  Then what is delivered
      is, for each block before the newest, what its packets give that come before a newer block: the
      whole block if they are enough, and otherwise the payloads among them.  If they are enough for all
      of these blocks, it is the beginning of the bytes that were given to the sender, up to the end of
      the last of these blocks.  FEC packets that the sender withholds count as lost. */
  lemma StreamArrives(tx: TxStream, l: Layout, states: seq<RxState>, events: seq<Event>)
    returns (arrivals: seq<Arrival>)
    requires tx.Valid() && l.Ok() && l.d == tx.d && l.f == tx.f && NoWrap(|tx.blocks|, l.d, l.f)
    requires IsRun(states, events, l)
    requires forall i :: 0 <= i < |events| ==> events[i].crcOk && events[i].packet in tx.sent
    ensures AreArrivals(arrivals, tx.blocks, l) && AllGenuine(events, arrivals, tx.blocks, l)
    ensures NoRestart(arrivals, tx.blocks, l) ==>
              var n, t := Simply(arrivals, tx.blocks, l).cur, Timely(arrivals, tx.blocks, l);
              Delivered(events) == if n < 0 then [] else BlocksOutput(b => SlotsOf(t, b), tx.blocks, l, n)
    ensures NoRestart(arrivals, tx.blocks, l) && AllRepairable(arrivals, tx.blocks, l) ==>
              var n := Simply(arrivals, tx.blocks, l).cur;
              && Delivered(events) == (if n < 0 then [] else Stream(tx.blocks[..n], l.d))
              && Delivered(events) <= tx.input
  {
    hide AllSent, SlotBytes, SequenceNumber, NoWrap, Repairable, SlotsOf, Step, Stream, IsPacket, NoRestart;
    hide Timely, Simply, BlocksOutput, IsRun, Delivered;
    arrivals := SentIsGenuine(tx.blocks, tx.skips, l, events);
    if NoRestart(arrivals, tx.blocks, l) {
      RunDelivers(states, events, arrivals, tx.blocks, l);
      if AllRepairable(arrivals, tx.blocks, l) {
        RepairableRunDeliversStream(states, events, arrivals, tx.blocks, l);
        var n := Simply(arrivals, tx.blocks, l).cur;
        if n >= 0 {
          StreamPrefix(tx.blocks, l.d, n);
        }
      }
    }
  }

  /** The block of the newest arrival, when blocks arrive in order. */
  function Newest(arrivals: seq<Arrival>): nat {
    if arrivals == [] then 0 else arrivals[|arrivals| - 1].block
  }

  /** Over a channel that loses and repeats packets, and reorders them within a block, but never lets a
      block overtake another, no packet is late: all that arrives of a block counts. */
  lemma StreamArrivesInOrder(tx: TxStream, l: Layout, states: seq<RxState>, events: seq<Event>)
    returns (arrivals: seq<Arrival>)
    requires tx.Valid() && l.Ok() && l.d == tx.d && l.f == tx.f && NoWrap(|tx.blocks|, l.d, l.f)
    requires IsRun(states, events, l)
    requires forall i :: 0 <= i < |events| ==> events[i].crcOk && events[i].packet in tx.sent
    ensures AreArrivals(arrivals, tx.blocks, l) && AllGenuine(events, arrivals, tx.blocks, l)
    ensures InOrder(arrivals) ==>
              && Newest(arrivals) <= |tx.blocks|
              && Delivered(events) == BlocksOutput(b => SlotsOf(arrivals, b), tx.blocks, l, Newest(arrivals))
    ensures InOrder(arrivals) && (forall b: nat :: b < Newest(arrivals) ==> Repairable(l, SlotsOf(arrivals, b))) ==>
              && Newest(arrivals) <= |tx.blocks|
              && Delivered(events) == Stream(tx.blocks[..Newest(arrivals)], l.d)
              && Delivered(events) <= tx.input
  {
    hide Repairable, SlotsOf, Step, Stream, IsPacket, NoRestart, NoWrap, AllGenuine;
    hide Timely, Simply, BlocksOutput, IsRun, Delivered;
    arrivals := StreamArrives(tx, l, states, events);
    if InOrder(arrivals) {
      InOrderIsNoRestart(arrivals, tx.blocks, l);
      InOrderIsTimely(arrivals, tx.blocks, l);
      NewestIsCurrent(arrivals, tx.blocks, l);
    }
  }

  lemma NewestIsCurrent(arrivals: seq<Arrival>, blocks: seq<seq<Vec>>, l: Layout)
    requires AreArrivals(arrivals, blocks, l) && InOrder(arrivals)
    ensures Newest(arrivals) <= |blocks|
    ensures var n := Simply(arrivals, blocks, l).cur; n == if arrivals == [] then -1 else Newest(arrivals)
    ensures Stream(blocks[..0], l.d) == [] && BlocksOutput(b => SlotsOf(arrivals, b), blocks, l, 0) == []
  {
    if arrivals != [] {
      InOrderOutput(arrivals, blocks, l);
    }
  }
}
