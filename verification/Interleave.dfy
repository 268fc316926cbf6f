/** The order of the packets of a block on the air: data and FEC packets alternate until one kind
    runs out, and the rest of the other kind follows.  Sequence numbers count packets, so they
    determine the block, the kind and the index of every packet. */
module Interleave {
  import opened Arithmetic

  datatype Kind = Data(index: nat) | FecBlock(index: nat)

  function Min(a: nat, b: nat): nat { if a < b then a else b }

  /** The position of data packet `i` in its block. */
  function DataSlot(i: nat, d: nat, f: nat): nat
    requires i < d
  {
    i + Min(i, f)
  }

  /** The position of FEC packet `j` in its block. */
  function FecSlot(j: nat, d: nat, f: nat): nat
    requires j < f
  {
    j + Min(j + 1, d)
  }

  /** The packet at position `s` of a block. */
  function SlotKind(s: nat, d: nat, f: nat): (k: Kind)
    requires s < d + f
  {
    var m := Min(d, f);
    if s < 2 * m then (if s % 2 == 0 then Data(s / 2) else FecBlock(s / 2))
    else if f < d then Data(s - m)
    else FecBlock(s - m)
  }

  /** The order in which both ends of the link go through a block, from data packet `di` and FEC
      packet `fi` on: the loop of the sender, and the loop of the receiver that splits a block. */
  ghost function Order(di: nat, fi: nat, d: nat, f: nat): (order: seq<Kind>)
    requires di <= d && fi <= f
    decreases d - di + f - fi
  {
    if di == d && fi == f then []
    else
      (if di < d then [Data(di)] else []) + (if fi < f then [FecBlock(fi)] else []) +
      Order(if di < d then di + 1 else di, if fi < f then fi + 1 else fi, d, f)
  }

  /** Where the loops are when they come to data packet `di` and FEC packet `fi`. */
  predicate InStep(di: nat, fi: nat, d: nat, f: nat) {
    di <= d && fi <= f && di == Min(Max(di, fi), d) && fi == Min(Max(di, fi), f)
  }

  function Max(a: nat, b: nat): nat { if a < b then b else a }

  lemma {:induction false} OrderLength(di: nat, fi: nat, d: nat, f: nat)
    requires di <= d && fi <= f
    ensures |Order(di, fi, d, f)| == d - di + f - fi
    decreases d - di + f - fi
  {
    if di < d || fi < f {
      OrderLength(if di < d then di + 1 else di, if fi < f then fi + 1 else fi, d, f);
    }
  }

  lemma {:induction false} OrderIsSlots(di: nat, fi: nat, d: nat, f: nat, s: nat)
    requires InStep(di, fi, d, f) && di + fi <= s < d + f
    ensures |Order(di, fi, d, f)| == d - di + f - fi
    ensures Order(di, fi, d, f)[s - (di + fi)] == SlotKind(s, d, f)
    decreases d - di + f - fi
  {
    hide SlotKind;
    OrderLength(di, fi, d, f);
    var di2, fi2 := if di < d then di + 1 else di, if fi < f then fi + 1 else fi;
    var data, fec := if di < d then [Data(di)] else [], if fi < f then [FecBlock(fi)] else [];
    var rest := Order(di2, fi2, d, f);
    assert Order(di, fi, d, f) == data + fec + rest;
    assert |data| + |fec| == di2 + fi2 - (di + fi);
    if s >= di2 + fi2 {
      assert (data + fec + rest)[s - (di + fi)] == rest[s - (di2 + fi2)];
      OrderIsSlots(di2, fi2, d, f, s);
    } else {
      HeadIsSlot(di, fi, d, f, s);
      assert (data + fec + rest)[s - (di + fi)] == (data + fec)[s - (di + fi)];
      assert (data + fec)[s - (di + fi)] == SlotKind(s, d, f);
    }
  }

  /** The one or two packets of one round of the loops. */
  lemma HeadIsSlot(di: nat, fi: nat, d: nat, f: nat, s: nat)
    requires InStep(di, fi, d, f) && di + fi <= s < d + f
    requires s < (if di < d then di + 1 else di) + (if fi < f then fi + 1 else fi)
    ensures SlotKind(s, d, f) == if s == di + fi && di < d then Data(di) else FecBlock(fi)
    ensures fi == f ==> s == di + fi && di < d
  {}

  /** The loop order puts at position s exactly what `SlotKind` says. */
  lemma OrderOfBlock(d: nat, f: nat)
    ensures |Order(0, 0, d, f)| == d + f
    ensures forall s :: 0 <= s < d + f ==> Order(0, 0, d, f)[s] == SlotKind(s, d, f)
  {
    OrderLength(0, 0, d, f);
    forall s | 0 <= s < d + f ensures |Order(0, 0, d, f)| == d + f && Order(0, 0, d, f)[s] == SlotKind(s, d, f) {
      OrderIsSlots(0, 0, d, f, s);
    }
  }

  /** A block of 8 data and 4 FEC packets. */
  lemma OrderOfEightAndFour()
    ensures Order(0, 0, 8, 4) == [Data(0), FecBlock(0), Data(1), FecBlock(1), Data(2), FecBlock(2),
                                  Data(3), FecBlock(3), Data(4), Data(5), Data(6), Data(7)]
  {
    assert Order(4, 4, 8, 4) == [Data(4), Data(5), Data(6), Data(7)];
  }

  lemma DataSlotKind(i: nat, d: nat, f: nat)
    requires i < d
    ensures DataSlot(i, d, f) < d + f && SlotKind(DataSlot(i, d, f), d, f) == Data(i)
  {}

  lemma FecSlotKind(j: nat, d: nat, f: nat)
    requires j < f
    ensures FecSlot(j, d, f) < d + f && SlotKind(FecSlot(j, d, f), d, f) == FecBlock(j)
  {}

  lemma KindSlot(s: nat, d: nat, f: nat)
    requires s < d + f
    ensures match SlotKind(s, d, f)
            case Data(i) => i < d && DataSlot(i, d, f) == s
            case FecBlock(j) => j < f && FecSlot(j, d, f) == s
  {}

  /** Slots and packets determine each other, and every slot is used: a bijection. */
  lemma SlotsAreBijective(d: nat, f: nat)
    ensures forall i :: 0 <= i < d ==> DataSlot(i, d, f) < d + f && SlotKind(DataSlot(i, d, f), d, f) == Data(i)
    ensures forall j :: 0 <= j < f ==> FecSlot(j, d, f) < d + f && SlotKind(FecSlot(j, d, f), d, f) == FecBlock(j)
    ensures forall s :: 0 <= s < d + f ==>
      match SlotKind(s, d, f)
      case Data(i) => i < d && DataSlot(i, d, f) == s
      case FecBlock(j) => j < f && FecSlot(j, d, f) == s
  {
    hide DataSlot, FecSlot, SlotKind;
    forall i | 0 <= i < d ensures DataSlot(i, d, f) < d + f && SlotKind(DataSlot(i, d, f), d, f) == Data(i) {
      DataSlotKind(i, d, f);
    }
    forall j | 0 <= j < f ensures FecSlot(j, d, f) < d + f && SlotKind(FecSlot(j, d, f), d, f) == FecBlock(j) {
      FecSlotKind(j, d, f);
    }
    forall s | 0 <= s < d + f
      ensures match SlotKind(s, d, f)
              case Data(i) => i < d && DataSlot(i, d, f) == s
              case FecBlock(j) => j < f && FecSlot(j, d, f) == s
    {
      KindSlot(s, d, f);
    }
  }

  // ----- sequence numbers

  /** The sequence number of the packet in slot `s` of block `b`. */
  function SequenceNumber(b: nat, s: nat, d: nat, f: nat): nat { b * (d + f) + s }

  /** A receiver recovers the block and the slot from the sequence number. */
  lemma SequenceNumberSplits(b: nat, s: nat, d: nat, f: nat)
    requires s < d + f
    ensures SequenceNumber(b, s, d, f) / (d + f) == b
    ensures SequenceNumber(b, s, d, f) % (d + f) == s
  {
    DivideMultiple(b, s, d + f);
  }

  /** So a sequence number determines the block, the kind and the index of its packet. */
  lemma SequenceNumberIsInjective(b: nat, s: nat, b': nat, s': nat, d: nat, f: nat)
    requires s < d + f && s' < d + f
    requires SequenceNumber(b, s, d, f) == SequenceNumber(b', s', d, f)
    ensures b == b' && s == s' && SlotKind(s, d, f) == SlotKind(s', d, f)
  {
    SequenceNumberSplits(b, s, d, f);
    SequenceNumberSplits(b', s', d, f);
  }
}
