/** A restart of the sender: when the receiver takes a packet for the beginning of a new stream, and that
    it then begins again itself. */
module Restarts {
  import opened LinearAlgebra
  import opened Machine
  import opened Packets
  import opened Reception
  import opened Delivery
  import opened Sender
  import opened EndToEnd

  /** The newest block, told from the packets alone.  A packet with a right checksum begins a new block
      if its block is newer, and also if it is more than 128 blocks behind. */
  ghost function NewestBlock(events: seq<Event>, l: Layout): int
    requires 0 < l.d
  {
    if |events| == 0 then -1
    else
      var n := |events| - 1;
      var newest, b := NewestBlock(events[..n], l), BlockOf(events[n].packet, l);
      if events[n].crcOk && (b > newest || b + 128 < newest) then b else newest
  }

  /** Packet `k` has a right checksum, and is more than 128 blocks behind the newest. */
  ghost predicate IsFarBehind(events: seq<Event>, k: nat, l: Layout)
    requires 0 < l.d && k < |events|
  {
    events[k].crcOk && BlockOf(events[k].packet, l) + 128 < NewestBlock(events[..k], l)
  }

  /** How often that happens. */
  ghost function TimesFarBehind(events: seq<Event>, l: Layout): nat
    requires 0 < l.d
  {
    if |events| == 0 then 0
    else TimesFarBehind(events[..|events| - 1], l) + if IsFarBehind(events, |events| - 1, l) then 1 else 0
  }

  lemma RunLayout(states: seq<RxState>, events: seq<Event>, l: Layout)
    requires IsRun(states, events, l)
    ensures l.Ok() && |states| == |events| + 1
  {}

  /** One step, in numbers. */
  lemma StepInNumbers(s: RxState, e: Event, l: Layout, s': RxState)
    requires Step(s, e, l, s') && s.blockNum == s.maxBlockNum
    ensures 0 < l.d
    ensures var b, newest := BlockOf(e.packet, l), s.maxBlockNum;
            if !e.crcOk || newest - 128 <= b <= newest then
              && s'.blockNum == s'.maxBlockNum == newest && s'.counts == s.counts && e.emitted == []
              && (b != newest ==> s' == s)
            else
              && s'.blockNum == s'.maxBlockNum == b
              && (b < newest ==> e.emitted == []
                                 && s'.counts == Counts((s.counts.restarts + 1) % 0x1_0000_0000, 0, 0, 0, 0))
              && (b >= newest ==> s'.counts.restarts == s.counts.restarts)
  {
    hide Stored, Delivers, Cleared, MissingData, MissingFec, Failed;
  }

  /** In every run, whatever arrives, the receiver knows the newest block and counts the restarts. */
  lemma {:induction false} NewestIsCurrent(states: seq<RxState>, events: seq<Event>, l: Layout)
    requires IsRun(states, events, l)
    ensures 0 < l.d && |states| == |events| + 1
    ensures states[|events|].blockNum == states[|events|].maxBlockNum == NewestBlock(events, l)
    ensures states[|events|].counts.restarts == TimesFarBehind(events, l) % 0x1_0000_0000
    decreases |events|
  {
    hide Step, BlockOf;
    RunLayout(states, events, l);
    if |events| > 0 {
      var n := |events| - 1;
      RunPrefix(states, events, l);
      NewestIsCurrent(states[..n + 1], events[..n], l);
      StepInNumbers(states[n], events[n], l, states[n + 1]);
      NextModulo(TimesFarBehind(events[..n], l));
    }
  }

  lemma NextModulo(n: nat)
    ensures (n % 0x1_0000_0000 + 1) % 0x1_0000_0000 == (n + 1) % 0x1_0000_0000
  {}

  /** The state before packet `k`. */
  lemma StateBefore(states: seq<RxState>, events: seq<Event>, l: Layout, k: nat)
    requires IsRun(states, events, l) && k < |events|
    ensures |states| == |events| + 1 && 0 < l.d && Step(states[k], events[k], l, states[k + 1])
    ensures states[k].blockNum == states[k].maxBlockNum == NewestBlock(events[..k], l)
  {
    hide Step, IsInitial, BlockOf;
    assert states[..k + 1][k] == states[k] && |events[..k]| == k;
    NewestIsCurrent(states[..k + 1], events[..k], l);
  }

  /** A packet that is not so far behind never causes a restart: one of an older block, or with a wrong
      checksum, leaves all but the block in the buffer as it is, and one of an older block even that. */
  lemma NotFarBehind(states: seq<RxState>, events: seq<Event>, l: Layout, k: nat)
    requires IsRun(states, events, l) && k < |events| && 0 < l.d && !IsFarBehind(events, k, l)
    ensures |states| == |events| + 1 && states[k + 1].counts.restarts == states[k].counts.restarts
    ensures BlockOf(events[k].packet, l) < NewestBlock(events[..k], l) ==>
              states[k + 1] == states[k] && events[k].emitted == []
    ensures !events[k].crcOk ==>
              && events[k].emitted == [] && states[k + 1].counts == states[k].counts
              && states[k + 1].blockNum == states[k].blockNum
  {
    hide Step, BlockOf;
    StateBefore(states, events, l, k);
    StepInNumbers(states[k], events[k], l, states[k + 1]);
  }

  // ----- the receiver begins again

  /** The same state, with `base` restarts fewer on the counter of 32 bits. */
  function Rebased(s: RxState, base: nat): RxState
    requires base < UINT32
  {
    s.(counts := s.counts.(restarts := (s.counts.restarts + (UINT32 - base)) % UINT32))
  }

  lemma RebasedStep(s: RxState, e: Event, l: Layout, s': RxState, base: nat)
    requires Step(s, e, l, s') && base < UINT32
    ensures Step(Rebased(s, base), e, l, Rebased(s', base))
  {
    hide Stored, Delivers, Cleared, MissingData, MissingFec, Failed;
    RebasedNext(s.counts.restarts, base);
  }

  lemma RebasedNext(n: nat, base: nat)
    requires base < UINT32
    ensures ((n + 1) % UINT32 + (UINT32 - base)) % UINT32 == ((n + (UINT32 - base)) % UINT32 + 1) % UINT32
  {}

  lemma {:induction false} DeliveredInTwo(events: seq<Event>, k: nat)
    requires k <= |events|
    ensures Delivered(events) == Delivered(events[..k]) + Delivered(events[k..])
    decreases |events|
  {
    if k == |events| {
      assert events[..k] == events && events[k..] == [];
    } else {
      var n := |events| - 1;
      DeliveredInTwo(events[..n], k);
      assert events[..n][..k] == events[..k] && events[..n][k..] == events[k..][..n - k];
    }
  }

  /** The same block in the buffer, and the same counters but for the number of restarts. */
  predicate SameButRestarts(s: RxState, t: RxState) {
    && s.blockNum == t.blockNum && s.maxBlockNum == t.maxBlockNum && s.slots == t.slots
    && s.counts.(restarts := 0) == t.counts.(restarts := 0)
  }

  /** The first packet of the new stream, as a new receiver sees it. */
  lemma FirstAgain(s: RxState, e: Event, l: Layout, s': RxState)
    requires Step(s, e, l, s') && s.blockNum == s.maxBlockNum && e.crcOk && BlockOf(e.packet, l) + 128 < s.maxBlockNum
    ensures var first := RxState(-1, -1, e.left, Counts(0, 0, 0, 0, 0));
            && IsInitial(first, l) && s'.counts.restarts < UINT32
            && Step(first, e, l, Rebased(s', s'.counts.restarts))
    ensures e.emitted == []
  {
    hide Stored, Delivers, MissingData, MissingFec, Failed;
  }

  /** A packet with a right checksum that is more than 128 blocks behind the newest: the receiver gives
      up the block in the buffer, delivers nothing of it, and from then on behaves as a new receiver that
      sees this packet first.  All that is known of runs of a new receiver is therefore known of what
      follows. */
  lemma RestartBeginsAgain(states: seq<RxState>, events: seq<Event>, l: Layout, k: nat) returns (again: seq<RxState>)
    requires IsRun(states, events, l) && k < |events| && 0 < l.d && IsFarBehind(events, k, l)
    ensures |states| == |events| + 1 && IsRun(again, events[k..], l)
    ensures forall i :: 1 <= i <= |events| - k ==> SameButRestarts(again[i], states[k + i])
    ensures events[k].emitted == [] && Delivered(events) == Delivered(events[..k]) + Delivered(events[k..])
    ensures states[k + 1].counts == Counts((states[k].counts.restarts + 1) % 0x1_0000_0000, 0, 0, 0, 0)
  {
    hide Step, BlockOf, IsInitial;
    StateBefore(states, events, l, k);
    StepInNumbers(states[k], events[k], l, states[k + 1]);
    FirstAgain(states[k], events[k], l, states[k + 1]);
    DeliveredInTwo(events, k);
    var base, rest := states[k + 1].counts.restarts, events[k..];
    var first := RxState(-1, -1, events[k].left, Counts(0, 0, 0, 0, 0));
    again := seq(|rest| + 1, i requires 0 <= i <= |rest| => if i == 0 then first else Rebased(states[k + i], base));
    forall i | 0 <= i < |rest| ensures Step(again[i], rest[i], l, again[i + 1]) {
      if i > 0 {
        RebasedStep(states[k + i], events[k + i], l, states[k + i + 1], base);
      }
    }
    forall i | 1 <= i <= |rest| ensures SameButRestarts(again[i], states[k + i]) {
      assert again[i] == Rebased(states[k + i], base);
    }
  }

  /** So a stream that the sender begins after a restart arrives like the first one. */
  lemma StreamArrivesAgain(tx: TxStream, l: Layout, states: seq<RxState>, events: seq<Event>, k: nat)
    returns (arrivals: seq<Arrival>)
    requires tx.Valid() && l.Ok() && l.d == tx.d && l.f == tx.f && NoWrap(|tx.blocks|, l.d, l.f)
    requires IsRun(states, events, l) && k < |events| && IsFarBehind(events, k, l)
    requires forall i :: k <= i < |events| ==> events[i].crcOk && events[i].packet in tx.sent
    ensures AreArrivals(arrivals, tx.blocks, l) && AllGenuine(events[k..], arrivals, tx.blocks, l)
    ensures NoRestart(arrivals, tx.blocks, l) && AllRepairable(arrivals, tx.blocks, l) ==>
              var n := Simply(arrivals, tx.blocks, l).cur;
              && 0 <= n < |tx.blocks|
              && Delivered(events) == Delivered(events[..k]) + Stream(tx.blocks[..n], l.d)
              && Stream(tx.blocks[..n], l.d) <= tx.input
  {
    hide Step, BlockOf, IsInitial, Repairable, SlotsOf, Stream, IsPacket, NoRestart, NoWrap, Timely, Delivered, IsRun;
    hide IsFarBehind;
    var again := RestartBeginsAgain(states, events, l, k);
    arrivals := StreamArrives(tx, l, again, events[k..]);
    SomethingArrived(arrivals, tx.blocks, l);
  }

  lemma {:induction false} SomethingArrived(arrivals: seq<Arrival>, blocks: seq<seq<Vec>>, l: Layout)
    requires AreArrivals(arrivals, blocks, l)
    ensures |arrivals| > 0 ==> Simply(arrivals, blocks, l).cur >= 0
  {
    hide FlushOutput;
  }
}
