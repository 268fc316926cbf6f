/** The log: a ring of small records in shared memory.  A message is cut into chunks, one to a record,
    when it is put, and put together again when the log is printed. */
module LogRing {
  import opened Machine

  const LOG_ITEM_MAXMSG := 32
  const LOG_BUFFER_SIZE := 64

  datatype Level = Dbg | Inf | Warn | Err | Exc

  /** A record of the ring; of `msg`, only the first `msgLen` bytes mean anything. */
  datatype Record = Record(level: Level, date: nat, msgLen: nat, logContinue: bool, msg: seq<byte>)

  /** What a record says. */
  datatype Chunk = Chunk(level: Level, date: nat, text: seq<byte>, last: bool)

  /** What is printed for one message. */
  datatype Line = Line(level: Level, text: seq<byte>)

  datatype Message = Message(level: Level, date: nat, text: seq<byte>)

  // ----- cutting

  function Chunks(m: Message): (c: seq<Chunk>)
    ensures |c| > 0
    decreases |m.text|
  {
    if |m.text| <= LOG_ITEM_MAXMSG then
      [Chunk(m.level, m.date, m.text, true)]
    else
      [Chunk(m.level, m.date, m.text[..LOG_ITEM_MAXMSG], false)] + Chunks(m.(text := m.text[LOG_ITEM_MAXMSG..]))
  }

  function AllChunks(ms: seq<Message>): seq<Chunk> {
    if ms == [] then [] else AllChunks(ms[..|ms| - 1]) + Chunks(ms[|ms| - 1])
  }

  lemma {:induction false} ChunkCount(m: Message)
    ensures |Chunks(m)| == (if |m.text| == 0 then 1 else (|m.text| + 31) / 32)
    ensures forall i :: 0 <= i < |Chunks(m)| - 1 ==> |Chunks(m)[i].text| == 32
    ensures forall i :: 0 <= i < |Chunks(m)| ==> Chunks(m)[i].level == m.level && Chunks(m)[i].date == m.date
    decreases |m.text|
  {
    if |m.text| > LOG_ITEM_MAXMSG {
      ChunkCount(m.(text := m.text[LOG_ITEM_MAXMSG..]));
    }
  }

  // ----- putting together

  /** The text of the first message of `c`. */
  function Text(c: seq<Chunk>): seq<byte> {
    if c == [] then [] else if c[0].last then c[0].text else c[0].text + Text(c[1..])
  }

  /** What follows the first message of `c`. */
  function Rest(c: seq<Chunk>): (r: seq<Chunk>)
    ensures |r| <= |c| && (c != [] ==> |r| < |c|)
  {
    if c == [] then [] else if c[0].last then c[1..] else Rest(c[1..])
  }

  function Lines(c: seq<Chunk>): seq<Line>
    decreases |c|
  {
    if c == [] then [] else [Line(c[0].level, Text(c))] + Lines(Rest(c))
  }

  /** The last message of `c` is complete. */
  predicate Whole(c: seq<Chunk>) {
    c != [] ==> c[|c| - 1].last
  }

  function LineOf(m: Message): Line { Line(m.level, m.text) }

  function LinesOf(ms: seq<Message>): (l: seq<Line>)
    ensures |l| == |ms|
  {
    seq(|ms|, i requires 0 <= i < |ms| => LineOf(ms[i]))
  }

  /** A message in front of anything is put together again. */
  lemma {:induction false} ChunksRead(m: Message, c: seq<Chunk>)
    ensures Text(Chunks(m) + c) == m.text && Rest(Chunks(m) + c) == c && (Chunks(m) + c)[0].level == m.level
    decreases |m.text|
  {
    var d := Chunks(m) + c;
    if |m.text| <= LOG_ITEM_MAXMSG {
      assert d[1..] == c;
    } else {
      var n := m.(text := m.text[LOG_ITEM_MAXMSG..]);
      assert d[1..] == Chunks(n) + c;
      ChunksRead(n, c);
      assert m.text == m.text[..LOG_ITEM_MAXMSG] + n.text;
    }
  }

  lemma {:induction false} ChunksWhole(m: Message)
    ensures Whole(Chunks(m))
    decreases |m.text|
  {
    if |m.text| > LOG_ITEM_MAXMSG {
      ChunksWhole(m.(text := m.text[LOG_ITEM_MAXMSG..]));
    }
  }

  lemma {:induction false} TextRestAppend(c: seq<Chunk>, d: seq<Chunk>)
    requires c != [] && Whole(c)
    ensures Text(c + d) == Text(c) && Rest(c + d) == Rest(c) + d && Whole(Rest(c))
  {
    assert (c + d)[1..] == c[1..] + d;
    if !c[0].last {
      TextRestAppend(c[1..], d);
    }
  }

  lemma {:induction false} LinesAppend(c: seq<Chunk>, d: seq<Chunk>)
    requires Whole(c)
    ensures Lines(c + d) == Lines(c) + Lines(d)
    decreases |c|
  {
    if c == [] {
      assert c + d == d;
    } else {
      TextRestAppend(c, d);
      LinesAppend(Rest(c), d);
    }
  }

  lemma LinesOfOne(m: Message)
    ensures Lines(Chunks(m)) == [LineOf(m)]
  {
    ChunksRead(m, []);
    assert Chunks(m) + [] == Chunks(m);
  }

  /** Whatever messages are put one after another are read back in order, with their levels. */
  lemma {:induction false} MessagesRead(ms: seq<Message>)
    ensures Whole(AllChunks(ms)) && Lines(AllChunks(ms)) == LinesOf(ms)
  {
    if ms != [] {
      var front, m := ms[..|ms| - 1], ms[|ms| - 1];
      MessagesRead(front);
      ChunksWhole(m);
      LinesAppend(AllChunks(front), Chunks(m));
      LinesOfOne(m);
      assert LinesOf(ms) == LinesOf(front) + [LineOf(m)];
    }
  }

  // ----- the ring

  function Inc(p: nat): nat { (p + 1) % LOG_BUFFER_SIZE }

  /** The position `i` steps after `p`. */
  function At(p: nat, i: nat): (q: nat)
    requires p < LOG_BUFFER_SIZE && i <= LOG_BUFFER_SIZE
    ensures q == (p + i) % LOG_BUFFER_SIZE
  {
    if p + i < LOG_BUFFER_SIZE then p + i else p + i - LOG_BUFFER_SIZE
  }

  /** The number of steps from `tail` to `head`. */
  function Outstanding(head: nat, tail: nat): nat
    requires head < LOG_BUFFER_SIZE && tail < LOG_BUFFER_SIZE
  {
    if tail <= head then head - tail else head + LOG_BUFFER_SIZE - tail
  }

  predicate IsRecord(r: Record) { r.msgLen <= LOG_ITEM_MAXMSG == |r.msg| }

  function Read(r: Record): Chunk
    requires IsRecord(r)
  {
    Chunk(r.level, r.date, r.msg[..r.msgLen], !r.logContinue)
  }

  /** What is still to be printed. */
  function Contents(records: seq<Record>, head: nat, tail: nat): (c: seq<Chunk>)
    requires AreRecords(records)
    requires head < LOG_BUFFER_SIZE && tail < LOG_BUFFER_SIZE
    ensures |c| == Outstanding(head, tail)
  {
    seq(Outstanding(head, tail), i requires 0 <= i < Outstanding(head, tail) =>
      Read(records[At(tail, i)]))
  }

  predicate AreRecords(records: seq<Record>) {
    |records| == LOG_BUFFER_SIZE && forall i :: 0 <= i < LOG_BUFFER_SIZE ==> IsRecord(records[i])
  }

  /** The chunks `c` have been written, from position `head` on, over what was in `before`. */
  ghost predicate Written(before: seq<Record>, records: seq<Record>, head: nat, c: seq<Chunk>)
    requires AreRecords(before) && AreRecords(records) && head < LOG_BUFFER_SIZE && |c| <= LOG_BUFFER_SIZE
  {
    && (forall i :: 0 <= i < |c| ==> Read(records[At(head, i)]) == c[i])
    && (forall i :: |c| <= i < LOG_BUFFER_SIZE ==> records[At(head, i)] == before[At(head, i)])
  }

  /** As long as the ring does not overflow, what is written is appended. */
  lemma WrittenIsAppended(before: seq<Record>, records: seq<Record>, head: nat, tail: nat, c: seq<Chunk>)
    requires AreRecords(before) && AreRecords(records) && head < LOG_BUFFER_SIZE && tail < LOG_BUFFER_SIZE
    requires |c| < LOG_BUFFER_SIZE && Written(before, records, head, c)
    ensures Contents(records, At(head, |c|), tail) == Contents(before, head, tail) + c
        <==> Outstanding(head, tail) + |c| < LOG_BUFFER_SIZE
  {
    var n := Outstanding(head, tail);
    if n + |c| < LOG_BUFFER_SIZE {
      var a, b := Contents(records, At(head, |c|), tail), Contents(before, head, tail);
      forall i | 0 <= i < n + |c|
        ensures a[i] == (b + c)[i]
      {
        if i < n {
          assert At(tail, i) == At(head, LOG_BUFFER_SIZE - n + i);
        } else {
          assert At(tail, i) == At(head, i - n);
        }
      }
    }
  }

  lemma WrittenNext(before: seq<Record>, mid: seq<Record>, after: seq<Record>, head: nat, done: seq<Chunk>)
      returns (next: seq<Chunk>)
    requires AreRecords(before) && AreRecords(mid) && AreRecords(after)
    requires head < LOG_BUFFER_SIZE && |done| < LOG_BUFFER_SIZE && Written(before, mid, head, done)
    requires forall i :: 0 <= i < LOG_BUFFER_SIZE && i != At(head, |done|) ==> after[i] == mid[i]
    ensures next == done + [Read(after[At(head, |done|)])] && Written(before, after, head, next)
  {
    hide Read, IsRecord;
    next := done + [Read(after[At(head, |done|)])];
  }

  lemma NextChunk(m: Message, offset: nat)
    requires offset + LOG_ITEM_MAXMSG < |m.text|
    ensures Chunks(m.(text := m.text[offset..]))
         == [Chunk(m.level, m.date, m.text[offset..offset + LOG_ITEM_MAXMSG], false)]
            + Chunks(m.(text := m.text[offset + LOG_ITEM_MAXMSG..]))
  {
    var t := m.text[offset..];
    assert t[..LOG_ITEM_MAXMSG] == m.text[offset..offset + LOG_ITEM_MAXMSG];
    assert t[LOG_ITEM_MAXMSG..] == m.text[offset + LOG_ITEM_MAXMSG..];
  }

  lemma LastChunk(m: Message, offset: nat)
    requires offset <= |m.text| <= offset + LOG_ITEM_MAXMSG
    ensures Chunks(m.(text := m.text[offset..])) == [Chunk(m.level, m.date, m.text[offset..], true)]
  {}

  class LogBuffer {
    var head: nat
    var tail: nat
    const records: array<Record>

    ghost predicate Valid()
      reads this, records
    {
      head < LOG_BUFFER_SIZE && tail < LOG_BUFFER_SIZE && AreRecords(records[..])
    }

    ghost function Pending(): seq<Chunk>
      requires Valid()
      reads this, records
    {
      Contents(records[..], head, tail)
    }

    /** `log_create`; the records may be left over from an earlier run. */
    constructor (memory: array<Record>)
      requires AreRecords(memory[..])
      ensures Valid() && records == memory && Pending() == [] && head == tail == 62
    {
      records := memory;
      head := LOG_BUFFER_SIZE - 2;
      tail := LOG_BUFFER_SIZE - 2;
    }

    /** Fills the record at the head, and moves on. */
    method PutChunk(level: Level, tm: nat, logContinue: bool, text: seq<byte>)
      requires Valid() && |text| <= LOG_ITEM_MAXMSG
      modifies `head, records
      ensures Valid() && head == Inc(old(head))
      ensures Read(records[old(head)]) == Chunk(level, tm, text, !logContinue)
      ensures forall i :: 0 <= i < LOG_BUFFER_SIZE && i != old(head) ==> records[i] == old(records[i])
    {
      var record := records[head];
      record := record.(level := level, date := tm, msgLen := |text|, logContinue := logContinue);
      records[head] := record.(msg := text + record.msg[|text|..]);
      head := (head + 1) % LOG_BUFFER_SIZE;
    }

    /** `PutChunk`, as a step of writing a whole message. */
    method PutNext(ghost before: seq<Record>, ghost from: nat, ghost done: seq<Chunk>,
                   level: Level, tm: nat, logContinue: bool, text: seq<byte>) returns (ghost next: seq<Chunk>)
      requires Valid() && |text| <= LOG_ITEM_MAXMSG && AreRecords(before)
      requires from < LOG_BUFFER_SIZE && |done| < LOG_BUFFER_SIZE
      requires Written(before, records[..], from, done) && head == At(from, |done|)
      modifies `head, records
      ensures Valid() && next == done + [Chunk(level, tm, text, !logContinue)]
      ensures Written(before, records[..], from, next) && head == At(from, |next|)
    {
      hide Read, IsRecord, Written;
      ghost var mid := records[..];
      PutChunk(level, tm, logContinue, text);
      next := WrittenNext(before, mid, records[..], from, done);
    }

    /** `log_put_record`, with the message already formatted.  It is appended unless the ring
        overflows. */
    method PutRecord(level: Level, tm: nat, text: seq<byte>)
      requires Valid() && |text| < 512
      modifies `head, records
      ensures Valid()
      ensures var c := Chunks(Message(level, tm, text));
              && |c| < LOG_BUFFER_SIZE
              && Written(old(records[..]), records[..], old(head), c) && head == At(old(head), |c|)
              && (Pending() == old(Pending()) + c <==> |old(Pending())| + |c| < 64)
      ensures forall ms {:trigger AllChunks(ms)} ::
                old(Pending()) == AllChunks(ms) && |AllChunks(ms + [Message(level, tm, text)])| < 64
                ==> Pending() == AllChunks(ms + [Message(level, tm, text)])
    {
      hide Chunks, AreRecords, Written, At, Contents;
      ghost var m, before, from, done := Message(level, tm, text), records[..], head, [];
      ChunkCount(m);
      assert Written(before, before, from, []) && from == At(from, 0) by { NothingWritten(before, from); }
      assert m == m.(text := text[0..]) && [] + Chunks(m) == Chunks(m);
      var len, offset := |text|, 0;
      while len - offset > LOG_ITEM_MAXMSG
        invariant Valid() && offset <= len && |Chunks(m)| < LOG_BUFFER_SIZE
        invariant Chunks(m) == done + Chunks(m.(text := text[offset..]))
        invariant Written(before, records[..], from, done) && head == At(from, |done|)
      {
        NextChunk(m, offset);
        ghost var rest := Chunks(m.(text := text[offset + LOG_ITEM_MAXMSG..]));
        ghost var next := PutNext(before, from, done, level, tm, true, text[offset..offset + LOG_ITEM_MAXMSG]);
        assert done + ([next[|done|]] + rest) == next + rest;
        done := next;
        offset := offset + LOG_ITEM_MAXMSG;
      }
      LastChunk(m, offset);
      assert text[offset..] == text[offset..len];
      done := PutNext(before, from, done, level, tm, false, text[offset..len]);
      WrittenIsAppended(before, records[..], from, tail, done);
      forall ms | old(Pending()) == AllChunks(ms)
        ensures AllChunks(ms + [m]) == old(Pending()) + done
      {
        assert (ms + [m])[..|ms|] == ms;
      }
    }

    /** Prints one message: its records up to the one that ends it, or up to the head. */
    method PrintMessage() returns (line: Line)
      requires Valid() && head != tail
      modifies `tail
      ensures Valid() && tail == MessageEnd(records[..], head, old(tail))
      ensures line == Line(old(Pending())[0].level, Text(old(Pending())))
    {
      hide Read, IsRecord, Contents, Text, MessageEnd, Outstanding, AreRecords;
      ghost var start, end := Text(Pending()), MessageEnd(records[..], head, tail);
      StepPending(records[..], head, tail);
      var record := records[tail];
      var level, text := record.level, [];
      assert [] + start == start;
      var more := true;
      while more
        invariant Valid()
        invariant more ==> head != tail && record == records[tail]
        invariant more ==> start == text + Text(Pending()) && end == MessageEnd(records[..], head, tail)
        invariant !more ==> start == text && end == Inc(tail)
        decreases Outstanding(head, tail), more
      {
        StepPending(records[..], head, tail);
        ghost var rest := Text(Contents(records[..], head, Inc(tail)));
        assert text + (record.msg[..record.msgLen] + rest) == text + record.msg[..record.msgLen] + rest;
        text := text + record.msg[..record.msgLen];
        if !record.logContinue {
          more := false;
        } else {
          tail := (tail + 1) % LOG_BUFFER_SIZE;
          record := records[tail];
          more := head != tail;
        }
      }
      tail := (tail + 1) % LOG_BUFFER_SIZE;
      line := Line(level, text);
    }

    /** `log_print`, for a log whose last message is complete. */
    method Print() returns (lines: seq<Line>)
      requires Valid() && Whole(Pending())
      modifies `tail
      ensures Valid() && tail == head
      ensures lines == Lines(old(Pending()))
      ensures forall ms :: old(Pending()) == AllChunks(ms) ==> lines == LinesOf(ms)
    {
      hide Contents, MessageEnd, AreRecords;
      lines := [];
      if head != tail {
        ghost var all := Pending();
        var more := true;
        while more
          invariant Valid() && Whole(Pending()) && (more <==> head != tail)
          invariant lines + Lines(Pending()) == Lines(all)
          decreases |Pending()|
        {
          WholeMessageEnds(records[..], head, tail);
          ghost var c := Pending();
          var line := PrintMessage();
          assert lines + Lines(c) == lines + [line] + Lines(Rest(c));
          lines := lines + [line];
          more := head != tail;
        }
      }
      forall ms | old(Pending()) == AllChunks(ms)
        ensures lines == LinesOf(ms)
      {
        MessagesRead(ms);
      }
    }
  }

  lemma NothingWritten(records: seq<Record>, head: nat)
    requires AreRecords(records) && head < LOG_BUFFER_SIZE
    ensures Written(records, records, head, []) && head == At(head, 0)
  {}

  // ----- where printing stops

  /** The tail after printing the message at `p`. */
  function MessageEnd(records: seq<Record>, head: nat, p: nat): (q: nat)
    requires AreRecords(records) && head < LOG_BUFFER_SIZE && p < LOG_BUFFER_SIZE && p != head
    ensures q < LOG_BUFFER_SIZE
    decreases Outstanding(head, p)
  {
    if !records[p].logContinue then Inc(p)
    else if Inc(p) == head then Inc(head)
    else MessageEnd(records, head, Inc(p))
  }

  lemma FirstPending(records: seq<Record>, head: nat, p: nat)
    requires AreRecords(records) && head < LOG_BUFFER_SIZE && p < LOG_BUFFER_SIZE && p != head
    ensures Outstanding(head, Inc(p)) == Outstanding(head, p) - 1
    ensures Contents(records, head, p) == [Read(records[p])] + Contents(records, head, Inc(p))
    ensures IsRecord(records[p])
    ensures Read(records[p]).text == records[p].msg[..records[p].msgLen] && Read(records[p]).level == records[p].level
    ensures Read(records[p]).last == !records[p].logContinue
  {}

  lemma StepPending(records: seq<Record>, head: nat, p: nat)
    requires AreRecords(records) && head < LOG_BUFFER_SIZE && p < LOG_BUFFER_SIZE && p != head
    ensures |records| == LOG_BUFFER_SIZE && IsRecord(records[p])
    ensures records[p].msgLen <= |records[p].msg|
    ensures var r, q, c := records[p], Inc(p), Contents(records, head, p);
            && Outstanding(head, q) < Outstanding(head, p) && c[0].level == r.level
            && Text(c) == r.msg[..r.msgLen] + (if r.logContinue then Text(Contents(records, head, q)) else [])
            && (q == head ==> Text(Contents(records, head, q)) == [])
            && MessageEnd(records, head, p)
               == (if !r.logContinue then q else if q == head then Inc(head) else MessageEnd(records, head, q))
  {
    FirstPending(records, head, p);
    hide Read, Contents;
    assert Contents(records, head, p)[1..] == Contents(records, head, Inc(p));
  }

  /** The record before the head ends a message, unless nothing is to be printed. */
  lemma WholeIsLastRecord(records: seq<Record>, head: nat, p: nat)
    requires AreRecords(records) && head < LOG_BUFFER_SIZE && p < LOG_BUFFER_SIZE
    ensures Whole(Contents(records, head, p))
        <==> p == head || !records[At(head, LOG_BUFFER_SIZE - 1)].logContinue
  {}

  lemma {:induction false} WholeMessageEnds(records: seq<Record>, head: nat, p: nat)
    requires AreRecords(records) && head < LOG_BUFFER_SIZE && p < LOG_BUFFER_SIZE && p != head
    requires Whole(Contents(records, head, p))
    ensures Contents(records, head, MessageEnd(records, head, p)) == Rest(Contents(records, head, p))
    ensures Whole(Contents(records, head, MessageEnd(records, head, p)))
    decreases Outstanding(head, p)
  {
    hide Contents, Read, IsRecord;
    FirstPending(records, head, p);
    var c := Contents(records, head, Inc(p));
    assert Contents(records, head, p)[1..] == c;
    if records[p].logContinue {
      WholeMessageEnds(records, head, Inc(p));
    }
  }

  /** With an unfinished message before the head, printing steps over the head. */
  lemma {:induction false} SteppedOver(records: seq<Record>, head: nat, p: nat)
    requires AreRecords(records) && head < LOG_BUFFER_SIZE && p < LOG_BUFFER_SIZE && p != head
    requires records[At(head, LOG_BUFFER_SIZE - 1)].logContinue
    ensures MessageEnd(records, head, p) != head
    decreases Outstanding(head, p)
  {
    if records[p].logContinue && Inc(p) != head {
      SteppedOver(records, head, Inc(p));
    }
  }

  /** Printing from `p` on catches up with the head after `n` messages. */
  ghost predicate EndsAfter(records: seq<Record>, head: nat, p: nat, n: nat)
    requires AreRecords(records) && head < LOG_BUFFER_SIZE && p < LOG_BUFFER_SIZE
    decreases n
  {
    if n == 0 then p == head else p != head && EndsAfter(records, head, MessageEnd(records, head, p), n - 1)
  }

  lemma {:induction false} NeverEnds(records: seq<Record>, head: nat, p: nat, n: nat)
    requires AreRecords(records) && head < LOG_BUFFER_SIZE && p < LOG_BUFFER_SIZE && p != head
    requires records[At(head, LOG_BUFFER_SIZE - 1)].logContinue
    ensures !EndsAfter(records, head, p, n)
    decreases n
  {
    if n > 0 {
      SteppedOver(records, head, p);
      NeverEnds(records, head, MessageEnd(records, head, p), n - 1);
    }
  }

  lemma {:induction false} Ends(records: seq<Record>, head: nat, p: nat) returns (n: nat)
    requires AreRecords(records) && head < LOG_BUFFER_SIZE && p < LOG_BUFFER_SIZE
    requires Whole(Contents(records, head, p))
    ensures EndsAfter(records, head, p, n)
    decreases Outstanding(head, p)
  {
    hide Contents, MessageEnd, AreRecords;
    if p == head {
      n := 0;
    } else {
      WholeMessageEnds(records, head, p);
      var m := Ends(records, head, MessageEnd(records, head, p));
      n := m + 1;
    }
  }

  /** Printing ends exactly if the last message is complete. */
  lemma PrintingEnds(records: seq<Record>, head: nat, p: nat)
    requires AreRecords(records) && head < LOG_BUFFER_SIZE && p < LOG_BUFFER_SIZE
    ensures (exists n: nat :: EndsAfter(records, head, p, n)) <==> Whole(Contents(records, head, p))
  {
    hide Contents, MessageEnd, AreRecords, EndsAfter;
    WholeIsLastRecord(records, head, p);
    if Whole(Contents(records, head, p)) {
      var n := Ends(records, head, p);
    } else {
      forall n: nat
        ensures !EndsAfter(records, head, p, n)
      {
        NeverEnds(records, head, p, n);
      }
    }
  }

  // ----- printing while a message is being put

  /** No chunk of a message but the last one ends it. */
  lemma {:induction false} EarlierChunks(m: Message, i: nat)
    requires i + 1 < |Chunks(m)|
    ensures !Chunks(m)[i].last
    decreases i
  {
    if i > 0 {
      EarlierChunks(m.(text := m.text[LOG_ITEM_MAXMSG..]), i - 1);
    }
  }

  /** Between the first and the last record of a message, whatever else is in the ring, printing does
      not end. */
  lemma PrintingDuringPut(before: seq<Record>, after: seq<Record>, head: nat, tail: nat, m: Message, done: nat)
    requires AreRecords(before) && AreRecords(after) && head < LOG_BUFFER_SIZE && tail < LOG_BUFFER_SIZE
    requires 0 < done < |Chunks(m)| && Outstanding(head, tail) + done < LOG_BUFFER_SIZE
    requires Written(before, after, head, Chunks(m)[..done])
    ensures !Whole(Contents(after, At(head, done), tail))
    ensures forall n: nat :: !EndsAfter(after, At(head, done), tail, n)
  {
    hide Chunks, Contents, Written, EndsAfter, AreRecords;
    var c := Chunks(m)[..done];
    WrittenIsAppended(before, after, head, tail, c);
    EarlierChunks(m, done - 1);
    PrintingEnds(after, At(head, done), tail);
  }

  /** A message of 33 bytes. */
  function LongMessage(): Message {
    Message(Err, 0, seq(33, i => 0))
  }

  /** The new log after the first record of this message: printing it now does not end. */
  lemma FirstRecordOnly(before: seq<Record>, after: seq<Record>)
    requires AreRecords(before) && AreRecords(after)
    requires Read(after[62]) == Chunk(Err, 0, seq(32, i => 0), false)
    requires forall i :: 0 <= i < LOG_BUFFER_SIZE && i != 62 ==> after[i] == before[i]
    ensures forall n: nat :: !EndsAfter(after, 63, 62, n)
  {
    hide EndsAfter, Contents, Read, IsRecord;
    var m := LongMessage();
    assert m.text[..LOG_ITEM_MAXMSG] == seq(LOG_ITEM_MAXMSG, i => 0);
    assert Chunks(m)[..1] == [Chunk(Err, 0, seq(LOG_ITEM_MAXMSG, i => 0), false)];
    PrintingDuringPut(before, after, 62, 62, m, 1);
  }
}
