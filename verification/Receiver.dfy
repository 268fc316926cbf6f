/** The receiving end in memory: a buffer for one block, which is decoded and delivered when a packet
    of a newer block arrives. */
module Receiver {
  import opened Field
  import opened Tables
  import opened Kernels
  import opened LinearAlgebra
  import opened Erasure
  import opened Fec
  import opened Interleave
  import opened Machine
  import opened Packets
  import opened Reception

  const RESTART_WINDOW := 128

  class RxPacket {
    var valid: bool
    var crcCorrect: bool
    var len: nat
    const data: array<gf>

    constructor (size: nat)
      ensures !valid && !crcCorrect && len == 0 && data.Length == size && fresh(data)
    {
      valid, crcCorrect, len := false, false, 0;
      data := new gf[size];
    }

    ghost function View(): Slot
      reads this, data
    {
      Slot(valid, crcCorrect, len, data[..])
    }

    method Reset()
      modifies this
      ensures !valid && !crcCorrect && len == 0
    {
      valid, crcCorrect, len := false, false, 0;
    }
  }

  /** Where delivered bytes go. */
  class Output {
    var bytes: nat
    const data: array<gf>

    constructor (size: nat)
      ensures bytes == 0 && data.Length == size && fresh(data)
    {
      bytes := 0;
      data := new gf[size];
    }

    ghost function Contents(): Vec
      requires bytes <= data.Length
      reads this, data
    {
      data[..bytes]
    }

    method Append(src: array<gf>, from: nat, n: nat)
      requires bytes + n <= data.Length && from + n <= src.Length && src != data
      modifies this, data
      ensures bytes == old(bytes) + n
      ensures Contents() == old(Contents()) + src[from..from + n]
    {
      CopyBytes(data, bytes, src, from, n);
      bytes := bytes + n;
    }
  }

  class RxStream {
    const g: Galois
    const l: Layout
    const buffers: seq<RxPacket>
    var blockNum: int
    var maxBlockNum: int
    var counts: Counts

    /** The packets of the buffer and their bytes. */
    ghost function Buffers(): set<object> {
      (set i | 0 <= i < |buffers| :: buffers[i] as object) + (set i | 0 <= i < |buffers| :: buffers[i].data as object)
    }

    ghost function Memory(): set<object> {
      {this} + Buffers()
    }

    ghost predicate Shaped() {
      && l.Ok() && |buffers| == l.d + l.f
      && (forall i :: 0 <= i < |buffers| ==> PAYLOAD_HEADER + PACKET_LENGTH <= buffers[i].data.Length)
      && (forall i, j :: 0 <= i < j < |buffers| ==> buffers[i] != buffers[j] && buffers[i].data != buffers[j].data)
      && (forall i :: 0 <= i < |buffers| ==> Outside(g, buffers[i].data))
    }

    ghost function View(): (slots: seq<Slot>)
      requires Shaped()
      reads Buffers()
      ensures AreSlots(slots, l) && |slots| == |buffers|
      ensures forall i :: 0 <= i < |slots| ==> slots[i] == buffers[i].View()
    {
      seq(|buffers|, i requires 0 <= i < |buffers| reads Buffers() => buffers[i].View())
    }

    ghost function State(): RxState
      requires Shaped()
      reads Memory()
    {
      RxState(blockNum, maxBlockNum, View(), counts)
    }

    ghost predicate Valid()
      reads g, g.inverse, g.mulTable
    {
      Shaped() && g.Ready()
    }

    constructor (g: Galois, l: Layout)
      requires g.Ready() && l.Ok()
      ensures Valid() && fresh(Memory())
      ensures this.g == g && this.l == l
      ensures blockNum == -1 && maxBlockNum == -1 && counts == Counts(0, 0, 0, 0, 0)
      ensures Cleared(View(), l) && forall i :: 0 <= i < |buffers| ==> buffers[i].data.Length == 4192
    {
      var list: seq<RxPacket> := [];
      for i := 0 to l.d + l.f
        invariant |list| == i
        invariant forall j :: 0 <= j < i ==> fresh(list[j]) && fresh(list[j].data)
        invariant forall j :: 0 <= j < i ==> !list[j].valid && !list[j].crcCorrect && list[j].len == 0
        invariant forall j :: 0 <= j < i ==> list[j].data.Length == MAX_PACKET_LENGTH
        invariant forall j, k :: 0 <= j < k < i ==> list[j] != list[k] && list[j].data != list[k].data
      {
        var p := new RxPacket(MAX_PACKET_LENGTH);
        list := list + [p];
      }
      this.g, this.l, buffers := g, l, list;
      blockNum, maxBlockNum, counts := -1, -1, Counts(0, 0, 0, 0, 0);
    }

    // ----- delivering a block

    /** The buffer is split into data and FEC packets, and the missing ones are counted. */
    method Split() returns (dataPkgs: seq<RxPacket>, fecPkgs: seq<RxPacket>, datasMissing: nat, fecsMissing: nat)
      requires Shaped()
      ensures SplitAs(dataPkgs, fecPkgs)
      ensures datasMissing == MissingData(View(), l, l.d)
      ensures fecsMissing == MissingFec(View(), l, l.f)
    {
      hide DataSlot, FecSlot, Min, Max, InStep, View, MissingData, MissingFec;
      dataPkgs, fecPkgs, datasMissing, fecsMissing := [], [], 0, 0;
      var di, fi, i := 0, 0, 0;
      ghost var slots := View();
      MissingNone(slots, l);
      LoopStart(l.d, l.f);
      while di < l.d || fi < l.f
        invariant InStep(di, fi, l.d, l.f) && di <= l.d && fi <= l.f && i == di + fi
        invariant |dataPkgs| == di && |fecPkgs| == fi
        invariant forall k :: 0 <= k < di ==>
          DataSlot(k, l.d, l.f) < |buffers| && dataPkgs[k] == buffers[DataSlot(k, l.d, l.f)]
        invariant forall k :: 0 <= k < fi ==>
          FecSlot(k, l.d, l.f) < |buffers| && fecPkgs[k] == buffers[FecSlot(k, l.d, l.f)]
        invariant View() == slots
        invariant datasMissing == MissingData(slots, l, di) && fecsMissing == MissingFec(slots, l, fi)
        decreases l.d - di + l.f - fi
      {
        LoopSlots(di, fi, l.d, l.f);
        if di < l.d {
          dataPkgs := dataPkgs + [buffers[i]];
          i := i + 1;
          MissingDataNext(slots, l, di);
          if !dataPkgs[di].valid {
            datasMissing := datasMissing + 1;
          }
          di := di + 1;
        }
        if fi < l.f {
          fecPkgs := fecPkgs + [buffers[i]];
          i := i + 1;
          MissingFecNext(slots, l, fi);
          if !fecPkgs[fi].valid {
            fecsMissing := fecsMissing + 1;
          }
          fi := fi + 1;
        }
      }
    }

    /** The packets of the buffer, sorted by kind. */
    ghost predicate SplitAs(dataPkgs: seq<RxPacket>, fecPkgs: seq<RxPacket>)
      requires Shaped()
    {
      && |dataPkgs| == l.d && |fecPkgs| == l.f
      && (forall i :: 0 <= i < l.d ==>
        DataSlot(i, l.d, l.f) < |buffers| && dataPkgs[i] == buffers[DataSlot(i, l.d, l.f)])
      && (forall j :: 0 <= j < l.f ==>
        FecSlot(j, l.d, l.f) < |buffers| && fecPkgs[j] == buffers[FecSlot(j, l.d, l.f)])
    }

    lemma SplitViews(dataPkgs: seq<RxPacket>, fecPkgs: seq<RxPacket>)
      requires Shaped() && SplitAs(dataPkgs, fecPkgs)
      ensures forall i :: 0 <= i < l.d ==> DataAt(View(), l, i) == dataPkgs[i].View()
      ensures forall j :: 0 <= j < l.f ==> FecAt(View(), l, j) == fecPkgs[j].View()
    {
      hide DataSlot, FecSlot, View;
    }

    /** Every bad data packet is paired with the next FEC packet that was received. */
    method PairUp(dataPkgs: seq<RxPacket>, fecPkgs: seq<RxPacket>) returns (erased: seq<nat>, nos: seq<nat>)
      requires Shaped() && SplitAs(dataPkgs, fecPkgs)
      ensures erased == Erased(View(), l) && nos == FecNumbers(View(), l)
    {
      hide DataSlot, FecSlot, View, SplitAs, DataAt, FecAt;
      ghost var slots := View();
      assert |dataPkgs| == l.d && |fecPkgs| == l.f by { SplitShape(dataPkgs, fecPkgs); }
      SplitViews(dataPkgs, fecPkgs);
      erased, nos := [], [];
      var fi, di := 0, 0;
      while di < l.d && fi < l.f
        invariant di <= l.d && fi <= l.f && |erased| == |nos|
        invariant erased == Bad(slots, l, di) && nos == Good(slots, l, fi)
        decreases l.d - di + l.f - fi
      {
        if dataPkgs[di].valid && dataPkgs[di].crcCorrect {
          di := di + 1;
        } else if !fecPkgs[fi].valid {
          fi := fi + 1;
        } else {
          erased, nos := erased + [di], nos + [fi];
          di, fi := di + 1, fi + 1;
        }
      }
      BadPrefix(slots, l, di, l.d);
      GoodPrefix(slots, l, fi, l.f);
      assert View() == slots;
    }

    lemma SplitShape(dataPkgs: seq<RxPacket>, fecPkgs: seq<RxPacket>)
      requires Shaped() && SplitAs(dataPkgs, fecPkgs)
      ensures |dataPkgs| == l.d && |fecPkgs| == l.f
    {}

    /** The bytes of all packets of the buffer. */
    ghost function Bytes(): set<object> {
      set i | 0 <= i < |buffers| :: buffers[i].data as object
    }

    ghost function Contents(pkgs: seq<RxPacket>): (c: seq<Vec>)
      reads set i | 0 <= i < |pkgs| :: pkgs[i].data
      ensures |c| == |pkgs| && forall i :: 0 <= i < |pkgs| ==> c[i] == pkgs[i].data[..]
    {
      seq(|pkgs|, i requires 0 <= i < |pkgs| reads set i | 0 <= i < |pkgs| :: pkgs[i].data => pkgs[i].data[..])
    }

    /** The packets of the buffer do not share memory, whatever their kind. */
    lemma SplitIsApart(dataPkgs: seq<RxPacket>, fecPkgs: seq<RxPacket>)
      requires Shaped() && SplitAs(dataPkgs, fecPkgs)
      ensures forall i :: 0 <= i < l.d ==> dataPkgs[i] in buffers
      ensures forall j :: 0 <= j < l.f ==> fecPkgs[j] in buffers
      ensures forall i, j :: 0 <= i < j < l.d ==> dataPkgs[i].data != dataPkgs[j].data
      ensures forall i, j :: 0 <= i < j < l.f ==> fecPkgs[i].data != fecPkgs[j].data
      ensures forall i, j :: 0 <= i < l.d && 0 <= j < l.f ==> dataPkgs[i].data != fecPkgs[j].data
    {
      hide DataSlot, FecSlot, SlotKind;
      SlotsAreBijective(l.d, l.f);
    }

    /** Decodes in place.  `decoded` is what the data packets then hold. */
    method Decode(dataPkgs: seq<RxPacket>, fecPkgs: seq<RxPacket>, erased: seq<nat>, nos: seq<nat>)
      returns (ghost decoded: seq<Vec>)
      requires Valid() && SplitAs(dataPkgs, fecPkgs)
      requires erased == Erased(View(), l) && nos == FecNumbers(View(), l)
      modifies Bytes()
      ensures Valid()
      ensures decoded == Contents(dataPkgs) && IsDecoding(old(View()), l, decoded)
    {
      hide Galois.Ready, DataSlot, FecSlot, View, DataAt, FecAt, Parity, IsBad, SplitAs;
      hide RxStream.Contents, Fec.Contents, Fec.Tails;
      ghost var slots := View();
      assert |dataPkgs| == l.d && |fecPkgs| == l.f by { SplitShape(dataPkgs, fecPkgs); }
      SplitViews(dataPkgs, fecPkgs);
      SplitIsApart(dataPkgs, fecPkgs);
      PairingIsDecodable(slots, l);
      var dataBlocks := seq(l.d, i requires 0 <= i < l.d => dataPkgs[i].data);
      var fecBlocks := seq(|nos|, k requires 0 <= k < |nos| => fecPkgs[nos[k]].data);
      FecDecode(g, PACKET_LENGTH, dataBlocks, fecBlocks, nos, erased);
      decoded := Contents(dataPkgs);
      assert Heads(decoded) == Fec.Contents(dataBlocks, PACKET_LENGTH);
    }

    /** The output is somewhere else, and has room for `n` more packets. */
    ghost predicate HasRoom(out: Output, n: nat)
      reads out
    {
      && out.bytes + n * PACKET_LENGTH <= out.data.Length
      && {out as object, out.data} !! Memory() + {g as object, g.inverse, g.mulTable}
    }

    /** Delivers the packets of the block, or what was received of it. */
    method Emit(dataPkgs: seq<RxPacket>, failed: bool, out: Output, ghost slots: seq<Slot>, ghost decoded: seq<Vec>)
      requires Valid() && HasRoom(out, l.d) && |dataPkgs| == l.d && AreSlots(slots, l) && |decoded| == l.d
      requires forall i :: 0 <= i < l.d ==> dataPkgs[i] in buffers
      requires forall i, j :: 0 <= i < j < l.d ==> dataPkgs[i].data != dataPkgs[j].data
      requires forall i :: 0 <= i < l.d ==>
        dataPkgs[i].data[..] == decoded[i] && dataPkgs[i].valid == DataAt(slots, l, i).valid
      requires forall i :: 0 <= i < l.d ==> PAYLOAD_HEADER + PACKET_LENGTH <= |decoded[i]|
      requires failed == Failed(slots, l)
      modifies Bytes(), out, out.data
      ensures Valid() && out.bytes <= out.data.Length
      ensures out.Contents() == old(out.Contents()) + Emission(slots, l, decoded, l.d)
    {
      hide Galois.Ready, View, DataAt, Failed, Emission, Clamped;
      EmissionNone(slots, l, decoded);
      for i := 0 to l.d
        invariant Valid() && HasRoom(out, l.d - i)
        invariant forall k :: i <= k < l.d ==> dataPkgs[k].data[..] == decoded[k]
        invariant out.Contents() == old(out.Contents()) + Emission(slots, l, decoded, i)
      {
        EmissionNext(slots, l, decoded, i);
        if !failed || dataPkgs[i].valid {
          Deliver(dataPkgs[i].data, out);
        }
      }
    }

    /** An empty buffer. */
    method ResetBuffers()
      requires Shaped()
      modifies set i | 0 <= i < |buffers| :: buffers[i]
      ensures Cleared(View(), l)
    {
      for i := 0 to |buffers|
        invariant forall j :: 0 <= j < i ==> !buffers[j].valid && !buffers[j].crcCorrect && buffers[j].len == 0
      {
        buffers[i].Reset();
      }
    }

    /** Repairs what can be repaired. */
    method Repair(dataPkgs: seq<RxPacket>, fecPkgs: seq<RxPacket>) returns (ghost decoded: seq<Vec>)
      requires Valid() && SplitAs(dataPkgs, fecPkgs)
      modifies Bytes()
      ensures Valid()
      ensures decoded == Contents(dataPkgs) && IsDecoding(old(View()), l, decoded)
    {
      hide Galois.Ready, View, SplitAs, IsDecoding, Erased, FecNumbers, RxStream.Contents;
      var erased, nos := PairUp(dataPkgs, fecPkgs);
      assert View() == old(View());
      decoded := Decode(dataPkgs, fecPkgs, erased, nos);
    }

    /** Repairs what can be repaired, and delivers the block. */
    method RepairAndEmit(dataPkgs: seq<RxPacket>, fecPkgs: seq<RxPacket>, failed: bool, out: Output)
      returns (ghost decoded: seq<Vec>, ghost emitted: Vec)
      requires Valid() && Shaped() && l.Ok() && HasRoom(out, l.d)
      requires SplitAs(dataPkgs, fecPkgs) && failed == Failed(View(), l)
      modifies Bytes(), out, out.data
      ensures Valid() && out.bytes <= out.data.Length
      ensures Delivers(old(View()), l, decoded, emitted)
      ensures out.Contents() == old(out.Contents()) + emitted
    {
      hide Galois.Ready, View, SplitAs, DataAt, FecAt, Emission, IsDecoding, Failed, Erased, FecNumbers;
      hide Contents, Cleared, Output.Contents;
      ghost var slots := View();
      assert |dataPkgs| == l.d && |fecPkgs| == l.f by { SplitShape(dataPkgs, fecPkgs); }
      SplitViews(dataPkgs, fecPkgs);
      SplitIsApart(dataPkgs, fecPkgs);
      decoded := Repair(dataPkgs, fecPkgs);
      DecodingLengths(slots, l, decoded);
      emitted := Emission(slots, l, decoded, l.d);
      Emit(dataPkgs, failed, out, slots, decoded);
    }

    /** Repairs what can be repaired, delivers the block, and empties the buffer. */
    method DeliverBlock(dataPkgs: seq<RxPacket>, fecPkgs: seq<RxPacket>, failed: bool, out: Output)
      returns (ghost decoded: seq<Vec>, ghost emitted: Vec)
      requires Valid() && Shaped() && l.Ok() && HasRoom(out, l.d)
      requires SplitAs(dataPkgs, fecPkgs) && failed == Failed(View(), l)
      modifies set i | 0 <= i < |buffers| :: buffers[i], Bytes(), out, out.data
      ensures Valid() && out.bytes <= out.data.Length
      ensures Delivers(old(View()), l, decoded, emitted)
      ensures out.Contents() == old(out.Contents()) + emitted
      ensures Cleared(View(), l)
    {
      hide Valid, View, SplitAs, Delivers, Failed, Cleared, Output.Contents;
      decoded, emitted := RepairAndEmit(dataPkgs, fecPkgs, failed, out);
      ResetBuffers();
    }

    /** Counts and delivers the block in the buffer, and empties it. */
    method FlushBlock(out: Output) returns (ghost decoded: seq<Vec>, ghost emitted: Vec)
      requires Valid() && Shaped() && l.Ok() && HasRoom(out, l.d)
      modifies this`counts, set i | 0 <= i < |buffers| :: buffers[i], Bytes(), out, out.data
      ensures Valid() && out.bytes <= out.data.Length
      ensures Delivers(old(View()), l, decoded, emitted)
      ensures out.Contents() == old(out.Contents()) + emitted
      ensures counts == CountsAfter(old(counts), old(View()), l)
      ensures Cleared(View(), l)
    {
      hide Valid, Shaped, View, SplitAs, Delivers, MissingData, MissingFec, Cleared, Output.Contents;
      ghost var slots := View();
      var dataPkgs, fecPkgs, datasMissing, fecsMissing := Split();
      MissingBound(slots, l);
      var goodFecs := l.f - fecsMissing;
      var packetsLost := datasMissing + fecsMissing;
      var failed := datasMissing > goodFecs;
      counts := Counts(counts.restarts, Count32(counts.blocks + 1),
                       if failed then Count32(counts.damaged + 1) else counts.damaged,
                       Count32(counts.received + l.d + l.f - packetsLost), Count32(counts.lost + packetsLost));
      decoded, emitted := DeliverBlock(dataPkgs, fecPkgs, failed, out);
    }

    // ----- one packet

    /** Puts a packet in its place, unless a correct one is there already. */
    method Store(s: nat, data: array<gf>, dataLen: nat, crcOk: bool)
      requires Shaped() && s < |buffers| && dataLen <= data.Length && dataLen <= buffers[s].data.Length
      requires data as object !in Memory()
      modifies buffers[s], buffers[s].data
      ensures View() == Stored(old(View()), s, data[..dataLen], crcOk)
      ensures old(g.Ready()) ==> g.Ready()
    {
      hide View, Galois.Ready;
      ghost var slots := View();
      var p := buffers[s];
      if !p.crcCorrect {
        ghost var before := p.data[..];
        CopyBytes(p.data, 0, data, 0, dataLen);
        assert p.data[..] == data[..dataLen] + before[dataLen..] by {
          assert p.data[..] == p.data[..0] + p.data[0..0 + dataLen] + p.data[0 + dataLen..];
        }
        p.len := dataLen;
        p.valid := true;
        p.crcCorrect := crcOk;
      }
      assert View() == Stored(slots, s, data[..dataLen], crcOk);
    }

    /** The sender has restarted: the counters begin again, and the buffer is emptied. */
    method Restart()
      requires Valid() && Shaped()
      modifies this`counts, this`blockNum, set i | 0 <= i < |buffers| :: buffers[i]
      ensures Valid() && blockNum == -1 && Cleared(View(), l)
      ensures counts == Counts(Count32(old(counts).restarts + 1), 0, 0, 0, 0)
    {
      hide Valid, View, Cleared;
      counts := Counts(Count32(counts.restarts + 1), 0, 0, 0, 0);
      blockNum := -1;
      ResetBuffers();
    }

    /** Makes room for a packet of a new block: the old one is delivered, or given up if the sender has
        restarted. */
    method StartBlock(newBlock: nat, restart: bool, out: Output) returns (ghost decoded: seq<Vec>, ghost emitted: Vec)
      requires Valid() && Shaped() && l.Ok() && HasRoom(out, l.d)
      modifies Memory(), out, out.data
      ensures Valid() && out.bytes <= out.data.Length
      ensures blockNum == newBlock && maxBlockNum == newBlock
      ensures out.Contents() == old(out.Contents()) + emitted
      ensures if restart then
                emitted == [] && Cleared(View(), l) && counts == Counts(Count32(old(counts).restarts + 1), 0, 0, 0, 0)
              else if old(blockNum) == -1 then
                emitted == [] && View() == old(View()) && counts == old(counts)
              else
                && Delivers(old(View()), l, decoded, emitted) && Cleared(View(), l)
                && counts == CountsAfter(old(counts), old(View()), l)
    {
      hide Valid, Shaped, View, Delivers, Cleared, CountsAfter, Output.Contents;
      decoded, emitted := [], [];
      if restart {
        Restart();
      }
      var lastBlockNum := blockNum;
      if lastBlockNum != -1 {
        decoded, emitted := FlushBlock(out);
      }
      blockNum := newBlock;
      maxBlockNum := newBlock;
    }

    /** Takes one packet from the air.  `e` tells what became of it. */
    method ProcessPayload(sequenceNumber: nat, data: array<gf>, dataLen: nat, crcOk: bool, out: Output)
      returns (ghost e: Event)
      requires Valid() && Shaped() && l.Ok() && HasRoom(out, l.d) && sequenceNumber < UINT32 && dataLen <= data.Length
      requires dataLen <= buffers[sequenceNumber % (l.d + l.f)].data.Length
      requires data as object !in Memory() + {out.data}
      modifies Memory(), out, out.data
      ensures Valid() && out.bytes <= out.data.Length
      ensures e.packet == Packet(sequenceNumber, data[..dataLen]) && e.crcOk == crcOk
      ensures out.Contents() == old(out.Contents()) + e.emitted
      ensures Step(old(State()), e, l, State())
    {
      hide Galois.Ready, View, Delivers, Cleared, Output.Contents, Stored, Step, Opened;
      ghost var before, p := State(), Packet(sequenceNumber, data[..dataLen]);
      e := Open(Packet(sequenceNumber, data[..dataLen]), crcOk, out);
      ghost var mid := State();
      var block := sequenceNumber / (l.d + l.f);
      if blockNum == block {
        var packetNum := sequenceNumber % (l.d + l.f);
        Store(packetNum, data, dataLen, crcOk);
      }
      StepInTwo(before, e, l, mid, State());
    }

    /** The part of `ProcessPayload` that may start a block for the packet `p`. */
    method Open(p: Packet, crcOk: bool, out: Output) returns (ghost e: Event)
      requires Valid() && Shaped() && l.Ok() && HasRoom(out, l.d)
      modifies Memory(), out, out.data
      ensures Valid() && out.bytes <= out.data.Length
      ensures e.packet == p && e.crcOk == crcOk && out.Contents() == old(out.Contents()) + e.emitted
      ensures Opened(old(State()), e, l, State())
    {
      hide Valid, Shaped, View, Delivers, Cleared, Output.Contents, Opened, AreSlots, CountsAfter, BlockOf;
      ghost var before := State();
      e := Event(p, crcOk, [], [], View());
      var block := BlockOf(p, l);
      var txRestart := block + RESTART_WINDOW < maxBlockNum;
      if (block > maxBlockNum || txRestart) && crcOk {
        ghost var decoded, emitted := StartBlock(block, txRestart, out);
        e := Event(p, crcOk, decoded, emitted, View());
      }
      OpenedBy(before, e, l, State());
    }
  }

  /** Delivers one packet.  A length field that is too large is corrected first. */
  method Deliver(data: array<gf>, out: Output)
    requires PAYLOAD_HEADER + PACKET_LENGTH <= data.Length && data != out.data
    requires out.bytes + PACKET_LENGTH <= out.data.Length
    modifies data, out, out.data
    ensures out.bytes <= old(out.bytes) + PACKET_LENGTH
    ensures out.Contents() == old(out.Contents()) + Clamped(old(data[..]))
  {
    hide Byte, Index;
    ghost var before := data[..];
    var length := Length32(data[..PAYLOAD_HEADER]);
    LengthOfHead(before);
    if length > PACKET_LENGTH {
      var field := Encode32(PACKET_LENGTH);
      data[0], data[1], data[2], data[3] := field[0], field[1], field[2], field[3];
      length := PACKET_LENGTH;
    }
    out.Append(data, PAYLOAD_HEADER, length);
    assert data[PAYLOAD_HEADER..PAYLOAD_HEADER + length] == before[PAYLOAD_HEADER..PAYLOAD_HEADER + length];
  }

  lemma LengthOfHead(b: Vec)
    requires |b| >= PAYLOAD_HEADER
    ensures Length32(b[..PAYLOAD_HEADER]) == Length32(b)
  {
    hide Index;
  }

  lemma EmissionNone(slots: seq<Slot>, l: Layout, decoded: seq<Vec>)
    requires AreSlots(slots, l) && l.d == |decoded|
    requires forall i :: 0 <= i < l.d ==> PAYLOAD_HEADER + PACKET_LENGTH <= |decoded[i]|
    ensures Emission(slots, l, decoded, 0) == []
  {}

  lemma EmissionNext(slots: seq<Slot>, l: Layout, decoded: seq<Vec>, i: nat)
    requires AreSlots(slots, l) && i < l.d == |decoded|
    requires forall i :: 0 <= i < l.d ==> PAYLOAD_HEADER + PACKET_LENGTH <= |decoded[i]|
    ensures Emission(slots, l, decoded, i + 1) == Emission(slots, l, decoded, i) +
            if !Failed(slots, l) || DataAt(slots, l, i).valid then Clamped(decoded[i]) else []
  {
    hide DataAt, Failed, Clamped;
  }

  lemma DecodingLengths(slots: seq<Slot>, l: Layout, decoded: seq<Vec>)
    requires l.Ok() && AreSlots(slots, l) && IsDecoding(slots, l, decoded)
    ensures |decoded| == l.d && forall i :: 0 <= i < l.d ==> PAYLOAD_HEADER + PACKET_LENGTH <= |decoded[i]|
  {}

  lemma LoopStart(d: nat, f: nat)
    ensures InStep(0, 0, d, f)
  {}

  lemma LoopSlots(di: nat, fi: nat, d: nat, f: nat)
    requires InStep(di, fi, d, f) && (di < d || fi < f)
    ensures di < d ==> di + fi < d + f && DataSlot(di, d, f) == di + fi
    ensures fi < f ==>
      var s := (if di < d then di + 1 else di) + fi;
      s < d + f && FecSlot(fi, d, f) == s
    ensures InStep(if di < d then di + 1 else di, if fi < f then fi + 1 else fi, d, f)
  {}

  lemma MissingNone(slots: seq<Slot>, l: Layout)
    requires AreSlots(slots, l)
    ensures MissingData(slots, l, 0) == 0 && MissingFec(slots, l, 0) == 0
  {}

  lemma MissingDataNext(slots: seq<Slot>, l: Layout, i: nat)
    requires AreSlots(slots, l) && i < l.d
    ensures DataSlot(i, l.d, l.f) < |slots|
    ensures MissingData(slots, l, i + 1) ==
            MissingData(slots, l, i) + if slots[DataSlot(i, l.d, l.f)].valid then 0 else 1
  {
    hide DataSlot;
    DataSlotKind(i, l.d, l.f);
  }

  lemma MissingFecNext(slots: seq<Slot>, l: Layout, j: nat)
    requires AreSlots(slots, l) && j < l.f
    ensures FecSlot(j, l.d, l.f) < |slots|
    ensures MissingFec(slots, l, j + 1) ==
            MissingFec(slots, l, j) + if slots[FecSlot(j, l.d, l.f)].valid then 0 else 1
  {
    hide FecSlot;
    FecSlotKind(j, l.d, l.f);
  }

  lemma {:induction false} BadPrefix(slots: seq<Slot>, l: Layout, m: nat, n: nat)
    requires AreSlots(slots, l) && m <= n <= l.d
    ensures Bad(slots, l, m) <= Bad(slots, l, n)
  {
    if m < n {
      BadPrefix(slots, l, m, n - 1);
    }
  }

  lemma {:induction false} GoodPrefix(slots: seq<Slot>, l: Layout, m: nat, n: nat)
    requires AreSlots(slots, l) && m <= n <= l.f
    ensures Good(slots, l, m) <= Good(slots, l, n)
  {
    if m < n {
      GoodPrefix(slots, l, m, n - 1);
    }
  }
}
