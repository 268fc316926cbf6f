/** Publication through shared memory: one writer, any number of readers, no lock.  The writer fills
    the slots in turn and then moves the index; a reader is handed a pointer into the slot of the
    current index, and reads through it later, while the writer goes on. */
module SharedMemory {
  import opened Arithmetic
  import opened Machine

  const SHM_COPIES := 4
  const SHM_START_IDX := 0xFFFF_FFFE
  const SHM_MAGIC := 0x53484D5F44415441
  const SHM_GUARD := 0x53484D4755415244

  /** The size of a pointer, and of the words that the map is addressed in. */
  const WORD := 8

  /** The size of the header in front of the slots, on a machine with 8-byte alignment. */
  const HEADER_SIZE := 88

  // ----- the layout

  function AlignSize(size: nat): (n: nat)
    ensures n % 8 == 0 && size <= n < size + 8
  {
    size + (WORD - 1) - (size + (WORD - 1)) % WORD
  }

  function CalcShmSize(copySize: nat, copies: nat): nat {
    AlignSize(copySize) * copies + HEADER_SIZE
  }

  /** Where a slot begins, behind the header. */
  function Offset(size: nat, slot: nat): nat { AlignSize(size) * slot }

  lemma OffsetIsWhole(size: nat, slot: nat)
    ensures WORD * (Offset(size, slot) / WORD) == Offset(size, slot)
  {
    var w := AlignSize(size) / WORD;
    hide AlignSize;
    assert AlignSize(size) == w * WORD;
    assert (w * WORD) * slot == (w * slot) * WORD;
    DivideMultiple(w * slot, 0, WORD);
  }

  lemma SlotsFit(size: nat, i: nat, j: nat)
    requires i < j < 4
    ensures Offset(size, i) + size <= Offset(size, j)
    ensures 88 + Offset(size, j) + size <= CalcShmSize(size, SHM_COPIES) == 88 + 4 * AlignSize(size)
    ensures WORD * (Offset(size, i) / WORD) == Offset(size, i) && WORD * (Offset(size, j) / WORD) == Offset(size, j)
  {
    hide AlignSize;
    MultipleBelow(i, j, AlignSize(size));
    MultipleBelow(j, SHM_COPIES, AlignSize(size));
    OffsetIsWhole(size, i);
    OffsetIsWhole(size, j);
  }

  // ----- the protocol

  datatype Writer = Idle | Copying(data: seq<byte>, done: nat)

  /** A pointer that `shm_map_read` handed out when `nth` values had been published. */
  datatype Held = Held(pointer: nat, nth: nat)

  /** `slots` is the memory behind the header.  `published` and `held` record what happened so far;
      the first published value is what the memory happens to hold in the beginning. */
  datatype State = State(slots: seq<byte>, index: nat, writer: Writer, published: seq<seq<byte>>, held: seq<Held>)

  /** The copying of a value is interleaved with everything that the readers do. */
  datatype Event = Begin(data: seq<byte>) | CopyByte | Publish | Read

  /** The index has 32 bits. */
  function Wrapped(x: nat): nat { x % UINT32 }

  function NextIndex(index: nat): nat { Wrapped(index + 1) }

  /** The slot for an index. */
  function SlotNumber(index: nat): (slot: nat)
    ensures slot < SHM_COPIES
  {
    index % SHM_COPIES
  }

  function Pointer(size: nat, index: nat): nat { WORD * (Offset(size, SlotNumber(index)) / WORD) }

  /** A value must not be larger than the size that was declared. */
  predicate Enabled(s: State, e: Event, size: nat) {
    match e
    case Begin(data) => s.writer.Idle? && |data| <= size
    case CopyByte => s.writer.Copying? && s.writer.done < |s.writer.data|
    case Publish => s.writer.Copying? && s.writer.done == |s.writer.data|
    case Read => true
  }

  function Next(s: State, e: Event, size: nat): State
    requires Enabled(s, e, size)
  {
    match e
    case Begin(data) => s.(writer := Copying(data, 0))
    case CopyByte =>
      var at := Pointer(size, NextIndex(s.index)) + s.writer.done;
      s.(slots := if at < |s.slots| then s.slots[at := s.writer.data[s.writer.done]] else s.slots,
         writer := Copying(s.writer.data, s.writer.done + 1))
    case Publish =>
      s.(index := NextIndex(s.index), writer := Idle, published := s.published + [s.writer.data])
    case Read =>
      s.(held := s.held + [Held(Pointer(size, s.index), |s.published|)])
  }

  /** As `shm_map_init` leaves the memory. */
  predicate Initial(s: State, size: nat) {
    && |s.slots| == CalcShmSize(size, SHM_COPIES) - HEADER_SIZE
    && s.index == SHM_START_IDX && s.writer.Idle? && s.held == []
    && |s.published| == 1 && |s.published[0]| <= size
    && Holds(s.slots, Pointer(size, s.index), s.published[0])
  }

  predicate Holds(slots: seq<byte>, pointer: nat, value: seq<byte>) {
    pointer + |value| <= |slots| && slots[pointer..pointer + |value|] == value
  }

  /** The number of values that the writer has begun to write. */
  function Begun(s: State): nat { |s.published| + (if s.writer.Copying? then 1 else 0) }

  /** The index after `n` published values, not counting the first. */
  function IndexOf(n: nat): nat { Wrapped(SHM_START_IDX + n) }

  ghost predicate Inv(s: State, size: nat) {
    && |s.slots| == CalcShmSize(size, SHM_COPIES) - HEADER_SIZE
    && |s.published| > 0 && s.index == IndexOf(|s.published| - 1)
    && (forall n :: 0 <= n < |s.published| ==> |s.published[n]| <= size)
    && (forall n :: 0 <= n < |s.published| && Begun(s) <= n + SHM_COPIES
          ==> Holds(s.slots, Pointer(size, IndexOf(n)), s.published[n]))
    && (s.writer.Copying? ==>
          && s.writer.done <= |s.writer.data| <= size
          && Holds(s.slots, Pointer(size, IndexOf(|s.published|)), s.writer.data[..s.writer.done]))
    && (forall h :: h in s.held ==> 0 < h.nth <= |s.published| && h.pointer == Pointer(size, IndexOf(h.nth - 1)))
  }

  // ----- the slots of the values

  /** The number of slots divides the number of indices. */
  lemma SlotOf(n: nat)
    ensures SlotNumber(IndexOf(n)) == (n + 2) % 4
    ensures NextIndex(IndexOf(n)) == IndexOf(n + 1)
  {
    hide Wrapped, SlotNumber;
    SlotOfWrapped(SHM_START_IDX + n);
    NextWrapped(SHM_START_IDX + n);
    SlotOfStart(n);
  }

  lemma SlotOfStart(n: nat)
    ensures SlotNumber(SHM_START_IDX + n) == SlotNumber(n + 2) == (n + 2) % 4
  {}

  lemma SlotOfWrapped(x: nat)
    ensures SlotNumber(Wrapped(x)) == SlotNumber(x)
  {
    var q, r := x / UINT32, Wrapped(x);
    assert x == q * UINT32 + r;
    DivideMultiple(q * (UINT32 / SHM_COPIES) + r / SHM_COPIES, r % SHM_COPIES, SHM_COPIES);
  }

  lemma NextWrapped(x: nat)
    ensures Wrapped(Wrapped(x) + 1) == Wrapped(x + 1)
  {}

  lemma FourInARow(n: nat, m: nat)
    requires n < m < n + 4
    ensures n % 4 != m % 4
  {}

  /** Less than four values apart, the slots do not overlap. */
  lemma Disjoint(size: nat, n: nat, m: nat)
    requires n != m && n < m + SHM_COPIES && m < n + SHM_COPIES
    ensures var p, q := Pointer(size, IndexOf(n)), Pointer(size, IndexOf(m));
            p + size <= q || q + size <= p
  {
    hide AlignSize, Offset, IndexOf, NextIndex, SlotNumber, CalcShmSize;
    SlotOf(n);
    SlotOf(m);
    if n < m {
      FourInARow(n + 2, m + 2);
    } else {
      FourInARow(m + 2, n + 2);
    }
    var i, j := SlotNumber(IndexOf(n)), SlotNumber(IndexOf(m));
    OffsetIsWhole(size, i);
    OffsetIsWhole(size, j);
    if i < j {
      SlotsFit(size, i, j);
    } else {
      SlotsFit(size, j, i);
    }
  }

  lemma SlotInMemory(size: nat, n: nat)
    ensures Pointer(size, IndexOf(n)) + size <= CalcShmSize(size, SHM_COPIES) - HEADER_SIZE
  {
    hide AlignSize, Offset, CalcShmSize, IndexOf;
    var i := SlotNumber(IndexOf(n));
    OffsetIsWhole(size, i);
    if i == 0 {
      SlotsFit(size, 0, 1);
    } else {
      SlotsFit(size, 0, i);
    }
  }

  // ----- every step keeps the invariant

  lemma InitialInv(s: State, size: nat)
    requires Initial(s, size)
    ensures Inv(s, size)
  {}

  lemma CopyByteKeeps(s: State, size: nat, pointer: nat, value: seq<byte>)
    requires Inv(s, size) && Enabled(s, CopyByte, size) && Holds(s.slots, pointer, value) && |value| <= size
    requires var q := Pointer(size, IndexOf(|s.published|)); pointer + size <= q || q + size <= pointer
    ensures Holds(Next(s, CopyByte, size).slots, pointer, value)
  {
    hide Pointer, IndexOf, CalcShmSize;
    SlotOf(|s.published| - 1);
    var t := Next(s, CopyByte, size);
    assert t.slots[pointer..pointer + |value|] == s.slots[pointer..pointer + |value|];
  }

  lemma CopyByteInv(s: State, size: nat)
    requires Inv(s, size) && Enabled(s, CopyByte, size)
    ensures Inv(Next(s, CopyByte, size), size)
  {
    hide Pointer, IndexOf, CalcShmSize, Holds;
    var t, m := Next(s, CopyByte, size), |s.published|;
    SlotOf(m - 1);
    forall n | 0 <= n < |t.published| && Begun(t) <= n + SHM_COPIES
      ensures Holds(t.slots, Pointer(size, IndexOf(n)), t.published[n])
    {
      Disjoint(size, n, m);
      CopyByteKeeps(s, size, Pointer(size, IndexOf(n)), s.published[n]);
    }
    SlotInMemory(size, m);
    OneMoreByte(s.slots, Pointer(size, IndexOf(m)), s.writer.data, s.writer.done);
  }

  lemma OneMoreByte(slots: seq<byte>, pointer: nat, data: seq<byte>, done: nat)
    requires done < |data| && pointer + |data| <= |slots| && Holds(slots, pointer, data[..done])
    ensures Holds(slots[pointer + done := data[done]], pointer, data[..done + 1])
  {
    var after := slots[pointer + done := data[done]];
    assert after[pointer..pointer + done + 1] == slots[pointer..pointer + done] + [data[done]];
    assert data[..done + 1] == data[..done] + [data[done]];
  }

  lemma StepInv(s: State, e: Event, size: nat)
    requires Inv(s, size) && Enabled(s, e, size)
    ensures Inv(Next(s, e, size), size)
  {
    hide Pointer, IndexOf, CalcShmSize;
    SlotOf(|s.published| - 1);
    match e
    case Begin(data) => SlotInMemory(size, |s.published|);
    case CopyByte => CopyByteInv(s, size);
    case Publish => assert s.writer.data[..s.writer.done] == s.writer.data;
    case Read =>
  }

  // ----- whole runs

  predicate IsRun(s: State, es: seq<Event>, size: nat)
    decreases |es|
  {
    es != [] ==> Enabled(s, es[0], size) && IsRun(Next(s, es[0], size), es[1..], size)
  }

  function After(s: State, es: seq<Event>, size: nat): State
    requires IsRun(s, es, size)
    decreases |es|
  {
    if es == [] then s else After(Next(s, es[0], size), es[1..], size)
  }

  lemma {:induction false} RunInv(s: State, es: seq<Event>, size: nat)
    requires Inv(s, size) && IsRun(s, es, size)
    ensures Inv(After(s, es, size), size)
    decreases |es|
  {
    hide Inv, Enabled, Next;
    if es != [] {
      StepInv(s, es[0], size);
      RunInv(Next(s, es[0], size), es[1..], size);
    }
  }

  /** What was published and handed out stays on record. */
  lemma {:induction false} RecordsGrow(s: State, es: seq<Event>, size: nat)
    requires IsRun(s, es, size)
    ensures var t := After(s, es, size); s.published <= t.published && s.held <= t.held
    decreases |es|
  {
    if es != [] {
      hide IsRun, After;
      RunUnfold(s, es, size);
      RecordsGrow(Next(s, es[0], size), es[1..], size);
    }
  }

  lemma RunUnfold(s: State, es: seq<Event>, size: nat)
    requires IsRun(s, es, size) && es != []
    ensures Enabled(s, es[0], size) && IsRun(Next(s, es[0], size), es[1..], size)
    ensures After(s, es, size) == After(Next(s, es[0], size), es[1..], size)
  {}

  lemma {:induction false} RunConcat(s: State, es: seq<Event>, e: Event, size: nat)
    requires IsRun(s, es, size) && Enabled(After(s, es, size), e, size)
    ensures IsRun(s, es + [e], size) && After(s, es + [e], size) == Next(After(s, es, size), e, size)
    decreases |es|
  {
    hide Enabled, Next;
    if es == [] {
      assert [e][1..] == [] && es + [e] == [e];
    } else {
      assert (es + [e])[1..] == es[1..] + [e];
      RunConcat(Next(s, es[0], size), es[1..], e, size);
    }
  }

  /** A reader reads, and then anything happens.  Until the writer begins the fourth write after it,
      the pointer denotes the value that was the current one when it was handed out. */
  lemma PointerKeepsValue(s: State, es: seq<Event>, size: nat)
    requires Inv(s, size) && IsRun(Next(s, Read, size), es, size)
    ensures var t := After(Next(s, Read, size), es, size);
            Begun(t) < |s.published| + 4 ==>
              Holds(t.slots, Pointer(size, s.index), s.published[|s.published| - 1])
  {
    hide Pointer, IndexOf, CalcShmSize, Holds;
    var r := Next(s, Read, size);
    StepInv(s, Read, size);
    RunInv(r, es, size);
    RecordsGrow(r, es, size);
  }

  /** All pointers of all readers, at any time of any run. */
  lemma AllPointersGood(s: State, es: seq<Event>, size: nat, h: Held)
    requires Initial(s, size) && IsRun(s, es, size) && h in After(s, es, size).held
    ensures var t := After(s, es, size);
            && 0 < h.nth <= |t.published|
            && (Begun(t) < h.nth + 4 ==> Holds(t.slots, h.pointer, t.published[h.nth - 1]))
  {
    hide Pointer, IndexOf, CalcShmSize, Holds;
    InitialInv(s, size);
    RunInv(s, es, size);
  }

  /** A write never touches the slot that readers are sent to. */
  lemma PublishedSlotUntouched(s: State, size: nat)
    requires Inv(s, size) && Enabled(s, CopyByte, size)
    ensures var p := Pointer(size, s.index);
            p + size <= |s.slots| && Next(s, CopyByte, size).slots[p..p + size] == s.slots[p..p + size]
  {
    hide Pointer, IndexOf, CalcShmSize;
    var p := Pointer(size, s.index);
    SlotInMemory(size, |s.published| - 1);
    Disjoint(size, |s.published| - 1, |s.published|);
    CopyByteKeeps(s, size, p, s.slots[p..p + size]);
  }

  /** Four is the limit: the first byte of the fourth later write already changes the value. */
  lemma FourthWriteOverwrites(s: State, size: nat, n: nat)
    requires Inv(s, size) && Enabled(s, CopyByte, size) && s.writer.done == 0
    requires n + 4 == |s.published| && s.published[n] != [] && s.published[n][0] != s.writer.data[0]
    ensures !Holds(Next(s, CopyByte, size).slots, Pointer(size, IndexOf(n)), s.published[n])
  {
    hide Pointer, CalcShmSize, IndexOf;
    SameSlot(size, n);
    SlotOf(|s.published| - 1);
    SlotInMemory(size, |s.published|);
    var t, p, v := Next(s, CopyByte, size), Pointer(size, IndexOf(n)), s.published[n];
    assert t.slots[p] == s.writer.data[0];
    assert p + |v| <= |t.slots| ==> t.slots[p..p + |v|][0] == t.slots[p];
  }

  /** Values four apart share a slot. */
  lemma SameSlot(size: nat, n: nat)
    ensures Pointer(size, IndexOf(n)) == Pointer(size, IndexOf(n + SHM_COPIES))
  {
    hide Offset, IndexOf;
    SlotOf(n);
    SlotOf(n + SHM_COPIES);
  }

  // ----- the functions of the library

  datatype Slot = Slot(index: nat, size: nat, offset: nat)

  /** What one undisturbed call of `shm_map_write` does. */
  function WriteEvents(value: seq<byte>): seq<Event> {
    [Begin(value)] + seq(|value|, i => CopyByte) + [Publish]
  }

  lemma OneWrite(s: State, value: seq<byte>, size: nat)
    requires Enabled(s, Begin(value), size)
    requires var b, es := Next(s, Begin(value), size), seq(|value|, i => CopyByte);
             IsRun(b, es, size) && Enabled(After(b, es, size), Publish, size)
    ensures var b, es := Next(s, Begin(value), size), seq(|value|, i => CopyByte);
            && IsRun(s, WriteEvents(value), size)
            && After(s, WriteEvents(value), size) == Next(After(b, es, size), Publish, size)
  {
    hide Enabled, Next;
    var es := seq(|value|, i => CopyByte);
    assert ([Begin(value)] + es)[1..] == es;
    RunConcat(s, [Begin(value)] + es, Publish, size);
  }

  /** The shared map: the header, and the memory behind it. */
  class SharedMap {
    var magic: nat
    var size: nat
    var copies: nat
    var index: nat
    var slots: seq<Slot>
    const data: array<byte>

    ghost var writer: Writer
    ghost var published: seq<seq<byte>>
    ghost var held: seq<Held>

    ghost predicate Valid()
      reads this, data
    {
      && |slots| == copies == SHM_COPIES
      && (forall i :: 0 <= i < SHM_COPIES ==> slots[i].offset == Offset(size, i))
      && Inv(View(), size)
    }

    ghost function View(): State
      reads this, data
    {
      State(data[..], index, writer, published, held)
    }

    /** `shm_map_init`.  The memory may be left over from an earlier run. */
    constructor (size: nat)
      ensures Valid() && Initial(View(), size) && this.size == size && magic == 0x53484D5F44415441
      ensures copies == 4 && index == 0xFFFF_FFFE && data.Length == 4 * AlignSize(size)
      ensures fresh(data)
    {
      var mapSize := CalcShmSize(size, SHM_COPIES);
      var bytes := new byte[mapSize - HEADER_SIZE];
      data := bytes;
      magic := SHM_MAGIC;
      this.size := size;
      copies := SHM_COPIES;
      index := SHM_START_IDX;
      slots := seq(SHM_COPIES, i requires 0 <= i < SHM_COPIES => Slot(SHM_START_IDX, 0, AlignSize(size) * i));
      writer := Idle;
      held := [];
      ghost var p := Pointer(size, SHM_START_IDX);
      SlotInMemory(size, 0);
      published := [bytes[p..p + size]];
      new;
      InitialInv(View(), size);
    }

    /** One step of `memcpy`. */
    method PutByte(at: nat, b: byte)
      requires Valid() && writer.Copying? && writer.done < |writer.data|
      requires at == Pointer(size, NextIndex(index)) + writer.done && b == writer.data[writer.done]
      modifies `writer, data
      ensures Valid() && View() == Next(old(View()), CopyByte, size)
    {
      hide Pointer, IndexOf, CalcShmSize, Holds, Offset;
      SlotOf(|published| - 1);
      SlotInMemory(size, |published|);
      CopyByteInv(View(), size);
      data[at] := b;
      writer := Copying(writer.data, writer.done + 1);
    }

    /** `memcpy` into the slot at `dst`. */
    method PutBytes(dst: nat, value: array<byte>, len: nat)
      requires Valid() && len <= value.Length && value != data
      requires dst == Pointer(size, NextIndex(index)) && writer == Copying(value[..len], 0)
      modifies `writer, data
      ensures Valid() && writer == Copying(value[..len], len)
      ensures var es := seq(len, i => CopyByte);
              IsRun(old(View()), es, size) && View() == After(old(View()), es, size)
    {
      hide Inv, IsRun, After, Next, Pointer;
      ghost var s := View();
      NothingRuns(s, size);
      for i := 0 to len
        invariant Valid() && writer == Copying(value[..len], i) && index == s.index
        invariant IsRun(s, seq(i, j => CopyByte), size) && View() == After(s, seq(i, j => CopyByte), size)
      {
        RunConcat(s, seq(i, j => CopyByte), CopyByte, size);
        assert seq(i + 1, j => CopyByte) == seq(i, j => CopyByte) + [CopyByte];
        CopyByteOnly(View(), size);
        PutByte(dst + i, value[i]);
      }
    }
  }

  lemma NothingRuns(s: State, size: nat)
    ensures IsRun(s, seq(0, i => CopyByte), size) && After(s, seq(0, i => CopyByte), size) == s
  {}

  lemma CopyByteOnly(s: State, size: nat)
    requires Enabled(s, CopyByte, size)
    ensures var t := Next(s, CopyByte, size);
            t.index == s.index && t.writer == Copying(s.writer.data, s.writer.done + 1)
  {}

  /** What a process keeps about a map that it has opened. */
  class Handle {
    var guard: nat
    var shm: SharedMap
    var size: nat

    constructor (m: SharedMap) {
      shm := m;
    }

    /** `shm_map_open` */
    method Open(m: SharedMap) returns (result: bool)
      modifies this
      ensures result <==> m.magic == 0x53484D5F44415441
      ensures result ==> guard == 0x53484D4755415244 && shm == m && size == m.size
      ensures !result ==> guard == old(guard) && shm == old(shm) && size == old(size)
    {
      result := false;
      if m.magic == SHM_MAGIC {
        guard, shm, size := SHM_GUARD, m, m.size;
        result := true;
      }
    }

    /** `shm_map_read` */
    method Read() returns (result: int, pointer: nat)
      requires shm.Valid()
      modifies shm`held
      ensures shm.Valid()
      ensures guard == 0x53484D4755415244 ==>
                result == 0 && shm.View() == Next(old(shm.View()), Event.Read, shm.size)
      ensures guard == 0x53484D4755415244 ==> shm.held == old(shm.held) + [Held(pointer, |shm.published|)]
      ensures guard != 0x53484D4755415244 ==> result == -1 && shm.View() == old(shm.View())
    {
      hide Inv;
      result, pointer := 0, 0;
      if guard != SHM_GUARD {
        result := -1;
      } else {
        StepInv(shm.View(), Event.Read, shm.size);
        var slot := shm.index % shm.copies;
        pointer := WORD * (shm.slots[slot].offset / WORD);
        shm.held := shm.held + [Held(pointer, |shm.published|)];
      }
    }

    /** `shm_map_write` */
    method Write(value: array<byte>, len: nat) returns (result: int)
      requires shm.Valid() && shm.writer.Idle? && len <= value.Length && len <= shm.size && value != shm.data
      modifies shm, shm.data
      ensures shm.Valid() && shm.writer.Idle? && shm.size == old(shm.size)
      ensures guard == 0x53484D4755415244 ==>
                && result == 0
                && IsRun(old(shm.View()), WriteEvents(value[..len]), shm.size)
                && shm.View() == After(old(shm.View()), WriteEvents(value[..len]), shm.size)
      ensures guard != 0x53484D4755415244 ==> result == -1 && shm.View() == old(shm.View())
    {
      hide Inv, IsRun, After;
      result := 0;
      if guard != SHM_GUARD {
        result := -1;
      } else {
        var index := NextIndex(shm.index);
        var slot := index % shm.copies;
        var dst := WORD * (shm.slots[slot].offset / WORD);
        ghost var s, v := shm.View(), value[..len];
        StepInv(s, Begin(v), shm.size);
        shm.writer := Copying(v, 0);
        shm.PutBytes(dst, value, len);
        StepInv(shm.View(), Publish, shm.size);
        OneWrite(s, v, shm.size);
        shm.index := index;
        shm.writer, shm.published := Idle, shm.published + [v];
      }
    }
  }
}
