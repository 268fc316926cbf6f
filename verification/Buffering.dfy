/** What the buffer of the receiver holds, told from the packets that arrived, with right checksums or
    wrong ones. */
module Buffering {
  import opened Reception
  import opened Delivery
  import opened Restarts

  /** How many packets arrived before the one that began the newest block. */
  ghost function Began(events: seq<Event>, l: Layout): (k: nat)
    requires 0 < l.d
    ensures k <= |events|
  {
    if |events| == 0 then 0
    else
      var n := |events| - 1;
      var newest, b := NewestBlock(events[..n], l), BlockOf(events[n].packet, l);
      if events[n].crcOk && (b > newest || b + 128 < newest) then n else Began(events[..n], l)
  }

  /** Packet `i` belongs in place `s` of the newest block, and came when that had begun. */
  ghost predicate Arrived(events: seq<Event>, l: Layout, i: int, s: int)
    requires 0 < l.d
  {
    && Began(events, l) <= i < |events|
    && BlockOf(events[i].packet, l) == NewestBlock(events, l) && SlotOf(events[i].packet, l) == s
  }

  /** Of the packets for a place, the first one with a right checksum is kept, and the last one if there
      is none. */
  ghost predicate IsKept(events: seq<Event>, l: Layout, i: int, s: int)
    requires 0 < l.d
  {
    && Arrived(events, l, i, s)
    && if events[i].crcOk then forall j :: Arrived(events, l, j, s) && events[j].crcOk ==> i <= j
       else forall j :: Arrived(events, l, j, s) ==> !events[j].crcOk && j <= i
  }

  ghost predicate Tells(r: Slot, events: seq<Event>, l: Layout, s: nat)
    requires 0 < l.d
  {
    && (r.valid <==> exists i :: Arrived(events, l, i, s))
    && (r.crcCorrect <==> exists i :: Arrived(events, l, i, s) && events[i].crcOk)
    && (r.valid ==>
          exists i :: IsKept(events, l, i, s) && r.len == |events[i].packet.bytes| <= |r.bytes|
                      && r.bytes[..r.len] == events[i].packet.bytes)
  }

  lemma OnlyOneKept(events: seq<Event>, l: Layout, i: nat, j: nat, s: nat)
    requires 0 < l.d && IsKept(events, l, i, s) && IsKept(events, l, j, s)
    ensures i == j
  {}

  /** The last packet begins a block. */
  lemma ArrivedFirst(events: seq<Event>, l: Layout)
    requires 0 < l.d && |events| > 0 && events[|events| - 1].crcOk
    requires var b, newest := BlockOf(events[|events| - 1].packet, l), NewestBlock(events[..|events| - 1], l);
             b > newest || b + 128 < newest
    ensures var n := |events| - 1;
            forall i, s :: Arrived(events, l, i, s) <==> i == n && s == SlotOf(events[n].packet, l)
  {
    hide BlockOf, SlotOf;
  }

  /** The last packet does not begin a block. */
  lemma ArrivedNext(events: seq<Event>, l: Layout)
    requires 0 < l.d && |events| > 0
    requires var b, newest := BlockOf(events[|events| - 1].packet, l), NewestBlock(events[..|events| - 1], l);
             !events[|events| - 1].crcOk || newest - 128 <= b <= newest
    ensures NewestBlock(events, l) == NewestBlock(events[..|events| - 1], l)
    ensures var n := |events| - 1;
            forall i, s :: Arrived(events, l, i, s) <==>
              Arrived(events[..n], l, i, s)
              || (i == n && BlockOf(events[n].packet, l) == NewestBlock(events[..n], l)
                  && SlotOf(events[n].packet, l) == s)
  {
    hide BlockOf, SlotOf;
    var n := |events| - 1;
    assert Began(events, l) == Began(events[..n], l);
    forall i, s
      ensures Arrived(events, l, i, s) <==>
              Arrived(events[..n], l, i, s)
              || (i == n && BlockOf(events[n].packet, l) == NewestBlock(events[..n], l)
                  && SlotOf(events[n].packet, l) == s)
    {
      if 0 <= i < n {
        assert events[..n][i] == events[i];
      }
    }
  }

  /** A packet for another place. */
  lemma TellsOther(r: Slot, before: seq<Event>, events: seq<Event>, l: Layout, s: nat)
    requires 0 < l.d && Tells(r, before, l, s) && before <= events
    requires forall i :: Arrived(events, l, i, s) <==> Arrived(before, l, i, s)
    ensures Tells(r, events, l, s)
  {
    hide Began, NewestBlock, BlockOf, SlotOf;
    forall i | Arrived(before, l, i, s) ensures events[i] == before[i] {}
    if r.valid {
      var i :| IsKept(before, l, i, s) && r.len == |before[i].packet.bytes| <= |r.bytes|
               && r.bytes[..r.len] == before[i].packet.bytes;
      assert IsKept(events, l, i, s);
    }
  }

  /** A packet for this place: it is kept if no correct one is there. */
  lemma TellsStored(r: Slot, r': Slot, before: seq<Event>, events: seq<Event>, l: Layout, s: nat)
    requires 0 < l.d && Tells(r, before, l, s) && before <= events && |events| == |before| + 1
    requires forall i :: Arrived(events, l, i, s) <==> i == |before| || Arrived(before, l, i, s)
    requires var p, n := events[|before|].packet.bytes, |events[|before|].packet.bytes|;
             n <= |r.bytes| && r' == if r.crcCorrect then r else Slot(true, events[|before|].crcOk, n, p + r.bytes[n..])
    ensures Tells(r', events, l, s)
  {
    hide Began, NewestBlock, BlockOf, SlotOf;
    var n := |before|;
    forall i | Arrived(before, l, i, s) ensures i < n && events[i] == before[i] {}
    assert Arrived(events, l, n, s);
    if r.crcCorrect {
      var i :| IsKept(before, l, i, s) && r.len == |before[i].packet.bytes| <= |r.bytes|
               && r.bytes[..r.len] == before[i].packet.bytes;
      assert IsKept(events, l, i, s);
    } else {
      assert IsKept(events, l, n, s);
      assert r'.bytes[..r'.len] == events[n].packet.bytes;
    }
  }

  /** In every run, whatever arrives: a place of the buffer holds a packet exactly if one arrived for it
      since the newest block began; it counts as correct exactly if one of these had a right checksum;
      and it holds the first such, or the last packet if there is none. */
  lemma {:induction false} BufferTells(states: seq<RxState>, events: seq<Event>, l: Layout, s: nat)
    requires IsRun(states, events, l) && s < l.d + l.f
    ensures l.Ok() && |states| == |events| + 1 && |states[|events|].slots| == l.d + l.f
    ensures Tells(states[|events|].slots[s], events, l, s)
    decreases |events|
  {
    hide Step, Tells, BlockOf, SlotOf, Arrived, IsInitial;
    RunLayout(states, events, l);
    if |events| == 0 {
      InitialTells(states[0], events, l, s);
    } else {
      var n := |events| - 1;
      RunPrefix(states, events, l);
      BufferTells(states[..n + 1], events[..n], l, s);
      StateBefore(states, events, l, n);
      assert events[..n] + [events[n]] == events;
      StepTells(states[n], events[n], l, states[n + 1], events[..n], events, s);
    }
  }

  lemma InitialTells(s: RxState, events: seq<Event>, l: Layout, i: nat)
    requires IsInitial(s, l) && |events| == 0 && i < l.d + l.f
    ensures l.Ok() && |s.slots| == l.d + l.f && Tells(s.slots[i], events, l, i)
  {}

  lemma StepTells(t: RxState, e: Event, l: Layout, t': RxState, before: seq<Event>, events: seq<Event>, s: nat)
    requires Step(t, e, l, t') && events == before + [e] && 0 < l.d && s < l.d + l.f
    requires t.blockNum == t.maxBlockNum == NewestBlock(before, l)
    requires |t.slots| == l.d + l.f && Tells(t.slots[s], before, l, s)
    ensures |t'.slots| == l.d + l.f && Tells(t'.slots[s], events, l, s)
  {
    hide Tells, BlockOf, SlotOf, Arrived, NewestBlock;
    assert events[..|before|] == before;
    var b, newest := BlockOf(e.packet, l), NewestBlock(before, l);
    if e.crcOk && (b > newest || b + 128 < newest) {
      ArrivedFirst(events, l);
      NothingYet(t.slots[s], before, l, s);
      BufferOfNewBlock(t, e, l, t', s);
      FirstTells(t'.slots[s], e, events, l, s);
    } else {
      ArrivedNext(events, l);
      BufferOfOldBlock(t, e, l, t', s);
      if b == newest && SlotOf(e.packet, l) == s {
        TellsStored(t.slots[s], t'.slots[s], before, events, l, s);
      } else {
        TellsOther(t'.slots[s], before, events, l, s);
      }
    }
  }

  lemma NothingYet(r: Slot, events: seq<Event>, l: Layout, s: nat)
    requires 0 < l.d && Tells(r, events, l, s)
    ensures NewestBlock(events, l) == -1 ==> !r.valid && !r.crcCorrect
  {}

  lemma BufferOfNewBlock(t: RxState, e: Event, l: Layout, t': RxState, s: nat)
    requires Step(t, e, l, t') && 0 < l.d && s < l.d + l.f && e.crcOk && t.blockNum == t.maxBlockNum
    requires BlockOf(e.packet, l) > t.maxBlockNum || BlockOf(e.packet, l) + 128 < t.maxBlockNum
    requires t.blockNum == -1 ==> !t.slots[s].valid && !t.slots[s].crcCorrect
    ensures |t'.slots| == l.d + l.f
    ensures var r := t'.slots[s];
            if SlotOf(e.packet, l) == s then
              && r.valid && r.crcCorrect && r.len == |e.packet.bytes| <= |r.bytes|
              && r.bytes[..r.len] == e.packet.bytes
            else !r.valid && !r.crcCorrect
  {}

  lemma BufferOfOldBlock(t: RxState, e: Event, l: Layout, t': RxState, s: nat)
    requires Step(t, e, l, t') && 0 < l.d && s < l.d + l.f && t.blockNum == t.maxBlockNum
    requires !e.crcOk || t.maxBlockNum - 128 <= BlockOf(e.packet, l) <= t.maxBlockNum
    ensures |t.slots| == |t'.slots| == l.d + l.f
    ensures var r, n := t.slots[s], |e.packet.bytes|;
            if BlockOf(e.packet, l) == t.blockNum && SlotOf(e.packet, l) == s then
              n <= |r.bytes| && t'.slots[s] == if r.crcCorrect then r
                                               else Slot(true, e.crcOk, n, e.packet.bytes + r.bytes[n..])
            else t'.slots[s] == r
  {}

  lemma FirstTells(r: Slot, e: Event, events: seq<Event>, l: Layout, s: nat)
    requires 0 < l.d && |events| > 0 && events[|events| - 1] == e && e.crcOk
    requires forall i, s :: Arrived(events, l, i, s) <==> i == |events| - 1 && s == SlotOf(e.packet, l)
    requires if SlotOf(e.packet, l) == s then
               && r.valid && r.crcCorrect && r.len == |e.packet.bytes| <= |r.bytes|
               && r.bytes[..r.len] == e.packet.bytes
             else !r.valid && !r.crcCorrect
    ensures Tells(r, events, l, s)
  {
    hide SlotOf, BlockOf, Arrived;
    if r.valid {
      assert IsKept(events, l, |events| - 1, s);
    }
  }
}
