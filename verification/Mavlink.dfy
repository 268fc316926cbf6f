/** The checksum at the end of a MAVLink message. */
module Mavlink {
  import opened Bursts
  import opened Crc
  import Field

  const MAVLINK_STX: bv8 := 253

  /** The fields before the payload, the magic byte included. */
  const HEADER_LEN := 10

  /** The number that a byte stands for. */
  lemma IndexOfByte(b: bv8)
    ensures b as nat == Field.Index(b)
  {}

  /** Whether the two bytes behind the payload are the X.25 checksum of everything between the magic
      byte and them, and of the byte `extra` that depends on the kind of message. */
  ghost predicate Sealed(buf: seq<bv8>, length: nat, extra: bv8) {
    && HEADER_LEN + length + 2 <= |buf|
    && Mirror(Join(buf[HEADER_LEN + length + 1], buf[HEADER_LEN + length]))
       == Serial(MessageUpward(buf[1..HEADER_LEN + length] + [extra]), X25_INIT_CRC)
  }

  /** Writes the checksum behind the payload. */
  method Seal(buf: array<bv8>, length: nat, extra: bv8)
    requires length <= 255 && HEADER_LEN + length + 2 <= buf.Length
    modifies buf
    ensures Sealed(buf[..], length, extra)
    ensures buf[..HEADER_LEN + length] == old(buf[..HEADER_LEN + length])
    ensures buf[HEADER_LEN + length + 2..] == old(buf[HEADER_LEN + length + 2..])
  {
    hide Mirror, Serial, MessageUpward, Message, Reversed, High, Low, Join, BitsUpward;
    var checksum := new Checksum();
    checksum.Calculate(buf, 1, HEADER_LEN - 1);
    ghost var header := buf[1..HEADER_LEN];
    checksum.AccumulateBuffer(buf, HEADER_LEN, length);
    ghost var payload := buf[HEADER_LEN..HEADER_LEN + length];
    checksum.Accumulate(extra);
    WholeMessage(header, payload, extra);
    assert buf[1..HEADER_LEN + length] == header + payload;
    var crc := checksum.crc;
    buf[HEADER_LEN + length] := Low(crc);
    buf[HEADER_LEN + length + 1] := High(crc);
    JoinedHalves(crc);
    assert buf[..][1..HEADER_LEN + length] == header + payload;
  }

  class Transmitter {
    var txSeq: bv8

    method MessageBuffer(buf: array<bv8>, length: nat, extra: bv8)
      requires length <= 255 && HEADER_LEN + length + 2 <= buf.Length
      modifies this, buf
      ensures Sealed(buf[..], length, extra)
      ensures buf[0] == 253 && Field.Index(buf[1]) == length && buf[2] == 0
      ensures buf[3] == old(buf[3]) && buf[4] == old(txSeq)
      ensures Sealed(buf[..], Field.Index(buf[1]), extra)
      ensures buf[5..HEADER_LEN + length] == old(buf[5..HEADER_LEN + length])
      ensures buf[HEADER_LEN + length + 2..] == old(buf[HEADER_LEN + length + 2..])
      ensures txSeq == old(txSeq) + 1
    {
      hide Sealed, Field.Byte, Field.Index;
      buf[0] := MAVLINK_STX;
      buf[1] := Field.Byte(length);
      buf[2] := 0;
      buf[4] := txSeq;
      txSeq := txSeq + 1;
      ghost var fields := buf[..HEADER_LEN + length];
      Seal(buf, length, extra);
      assert buf[..5] == fields[..5] && buf[5..HEADER_LEN + length] == fields[5..];
    }
  }

  lemma WholeMessage(header: seq<bv8>, payload: seq<bv8>, extra: bv8)
    ensures Serial(MessageUpward(header + payload + [extra]), X25_INIT_CRC)
         == Serial(BitsUpward(extra), Serial(MessageUpward(payload), Serial(Message(Reversed(header)), X25_INIT_CRC)))
  {
    hide Serial, BitsUpward, MirrorByte;
    MessageMirrored(header);
    MessageUpwardConcat(header, payload);
    SerialConcat(MessageUpward(header), MessageUpward(payload), X25_INIT_CRC);
    var d := header + payload + [extra];
    assert d[..|d| - 1] == header + payload && d[..|d|] == d;
    NextByte(d, |d| - 1, X25_INIT_CRC);
  }

  // ----- damage

  /** What the checksum covers and the checksum itself. */
  function Covered(buf: seq<bv8>, length: nat): seq<bv8>
    requires HEADER_LEN + length + 2 <= |buf|
  {
    buf[1..HEADER_LEN + length + 2]
  }

  /** The part of `Covered` in front of the checksum has `BodyLen(length)` bytes. */
  function BodyLen(length: nat): nat { HEADER_LEN + length - 1 }

  lemma SealedByPair(buf: seq<bv8>, length: nat, extra: bv8)
    requires HEADER_LEN + length + 2 <= |buf|
    ensures var v, n := Covered(buf, length), BodyLen(length);
            Sealed(buf, length, extra) <==>
            Pair(v[n], v[n + 1]) == Serial(MessageUpward(v[..n] + [extra]), X25_INIT_CRC)
  {
    hide Mirror, Join, Pair, Serial, MessageUpward;
    MirrorIsPair(buf[HEADER_LEN + length + 1], buf[HEADER_LEN + length]);
    assert Covered(buf, length)[..BodyLen(length)] == buf[1..HEADER_LEN + length];
  }

  /** The last two bytes of the body, and the extra byte, enter the register linearly. */
  lemma LastTwo(v: seq<bv8>, extra: bv8, c: bv16)
    requires |v| >= 2
    ensures var k := |v| - 2;
            var rest := Xor(TimesX24(Serial(MessageUpward(v[..k]), c)), TimesX8(Pending(MirrorByte(extra))));
            Serial(MessageUpward(v + [extra]), c) == Xor(TimesX24(Pair(v[k], v[k + 1])), rest)
  {
    hide Serial, MessageUpward, BitsUpward, TimesX24, TimesX8, Xor, Pending, MirrorByte, Pair;
    var k, w := |v| - 2, v + [extra];
    assert w[..k] == v[..k] && w[..k + 1] == v[..k + 1] && w[..k + 2] == v && w[..k + 3] == w;
    NextByte(w, k, c);
    NextByte(w, k + 1, c);
    NextByte(w, k + 2, c);
    PairAbsorbed(v[k], v[k + 1], extra, Serial(MessageUpward(v[..k]), c));
  }

  lemma XorCancels(a: bv16, b: bv16, p: bv16, q: bv16, r: bv16)
    requires a == Xor(p, r)
    ensures b == Xor(q, r) <==> Xor(a, b) == Xor(p, q)
  {
    hide Xor;
    XorSwap(p, r, p, q);
    XorZero(p);
    XorZero(Xor(r, q));
    XorComm(r, q);
    XorMoved(a, b, Xor(p, q));
  }

  lemma XorMoved(a: bv16, b: bv16, c: bv16)
    ensures Xor(a, b) == c <==> b == Xor(a, c)
  {
    hide Xor;
    XorAssoc(a, a, b);
    XorAssoc(a, a, c);
    XorZero(a);
    XorZero(b);
    XorZero(c);
  }

  /** Whether a change of the last two bytes of the body and of the checksum keeps the seal depends on
      the change alone. */
  lemma SealAfterChange(a: seq<bv8>, b: seq<bv8>, length: nat, extra: bv8)
    requires Sealed(a, length, extra) && |a| == |b|
    requires var k := BodyLen(length) - 2; Covered(a, length)[..k] == Covered(b, length)[..k]
    ensures var d := Change(Covered(a, length), Covered(b, length))[BodyLen(length) - 2..];
            |d| == 4 && (Sealed(b, length, extra) <==> Pair(d[2], d[3]) == TimesX24(Pair(d[0], d[1])))
  {
    hide Mirror, Join, Serial, MessageUpward, TimesX24, TimesX8, Xor, Pending, MirrorByte, Pair, Plus;
    var v, w, n := Covered(a, length), Covered(b, length), BodyLen(length);
    SealedByPair(a, length, extra);
    SealedByPair(b, length, extra);
    LastTwo(v[..n], extra, X25_INIT_CRC);
    LastTwo(w[..n], extra, X25_INIT_CRC);
    assert v[..n][..n - 2] == v[..n - 2] && w[..n][..n - 2] == w[..n - 2];
    PairPlus(v[n], v[n + 1], w[n], w[n + 1]);
    PairPlus(v[n - 2], v[n - 1], w[n - 2], w[n - 1]);
    var p, q := Pair(v[n - 2], v[n - 1]), Pair(w[n - 2], w[n - 1]);
    TimesX24IsLinear(p, q);
    var rest := Xor(TimesX24(Serial(MessageUpward(v[..n - 2]), X25_INIT_CRC)), TimesX8(Pending(MirrorByte(extra))));
    XorCancels(Pair(v[n], v[n + 1]), Pair(w[n], w[n + 1]), TimesX24(p), TimesX24(q), rest);
  }

  /** The damage is one of the seven changes of the last two bytes of the body and the checksum. */
  ghost predicate IsElusive(a: seq<bv8>, b: seq<bv8>, length: nat)
    requires |a| == |b| && HEADER_LEN + length + 2 <= |a|
  {
    var v, w, k := Covered(a, length), Covered(b, length), BodyLen(length) - 2;
    v[..k] == w[..k] && SlipsThrough(Change(v, w)[k..])
  }

  /** Damage to the fields or the payload. */
  lemma BodyDamage(a: seq<bv8>, b: seq<bv8>, length: nat, extra: bv8, at: nat, len: nat)
    requires Sealed(a, length, extra) && |a| == |b| && len <= 16 && at + len <= 8 * BodyLen(length)
    requires DifferWithin(Covered(a, length), Covered(b, length), at, len)
    ensures !Sealed(b, length, extra) && !IsElusive(a, b, length)
  {
    hide Mirror, Join, Serial, MessageUpward, Pair, Change, SlipsThrough;
    var v, w, n := Covered(a, length), Covered(b, length), BodyLen(length);
    SealedByPair(a, length, extra);
    SealedByPair(b, length, extra);
    BurstInFront(v, w, n, at, len);
    BurstExtended(v[..n], w[..n], [extra], at, len);
    UpwardBurstDetected(v[..n] + [extra], w[..n] + [extra], at, len, X25_INIT_CRC);
    assert v[n] == v[n..][0] == w[n..][0] == w[n] && v[n + 1] == v[n..][1] == w[n..][1] == w[n + 1];
    MiddleOfSeven(v, w, n - 2);
  }

  /** Damage to the checksum. */
  lemma ChecksumDamage(a: seq<bv8>, b: seq<bv8>, length: nat, extra: bv8, at: nat, len: nat)
    requires Sealed(a, length, extra) && |a| == |b| && len <= 16 && at >= 8 * BodyLen(length)
    requires DifferWithin(Covered(a, length), Covered(b, length), at, len)
    ensures !Sealed(b, length, extra) && !IsElusive(a, b, length)
  {
    hide Mirror, Join, Serial, MessageUpward, Pair, Change, SlipsThrough;
    var v, w, n := Covered(a, length), Covered(b, length), BodyLen(length);
    SealedByPair(a, length, extra);
    SealedByPair(b, length, extra);
    BurstBehind(v, w, n, at, len);
    PairInjective(v[n], v[n + 1], w[n], w[n + 1]);
    assert v == v[..n] + [v[n], v[n + 1]] && w == w[..n] + [w[n], w[n + 1]];
    assert v[n - 1] == v[..n][n - 1] == w[..n][n - 1] == w[n - 1];
    MiddleOfSeven(v, w, n - 2);
  }

  /** Damage that begins in the body and ends in the checksum. */
  lemma CrossingDamage(a: seq<bv8>, b: seq<bv8>, length: nat, extra: bv8, at: nat, len: nat)
    requires Sealed(a, length, extra) && |a| == |b| && len <= 16
    requires at < 8 * BodyLen(length) < at + len
    requires DifferWithin(Covered(a, length), Covered(b, length), at, len)
    ensures Sealed(b, length, extra) <==> IsElusive(a, b, length)
    ensures Sealed(b, length, extra) ==> len >= 14
  {
    hide Mirror, Join, Serial, MessageUpward, Pair, Plus, TimesX24, DifferWithin, SlipsThrough, Change;
    var v, w, k := Covered(a, length), Covered(b, length), BodyLen(length) - 2;
    BurstBehind(v, w, k, at, len);
    SealAfterChange(a, b, length, extra);
    ChangeOfEnd(v, w, k);
    CrossingChange(v[k..], w[k..], at - 8 * k, len);
  }

  lemma ChangeOfEnd(v: seq<bv8>, w: seq<bv8>, k: nat)
    requires |v| == |w| && k <= |v|
    ensures Change(v, w)[k..] == Change(v[k..], w[k..])
  {}

  /** Damage within a burst of 16 bits, anywhere in what the checksum covers and in the checksum itself,
      breaks the seal, unless it is one of seven changes of the four bytes around the end of the payload:
      the extra byte goes into the checksum there, but is not sent, so that a burst across it is one of
      24 bits for the checksum.  The seven extend over at least 14 bits. */
  lemma DamageBreaksSeal(a: seq<bv8>, b: seq<bv8>, length: nat, extra: bv8, at: nat, len: nat)
    requires Sealed(a, length, extra) && |a| == |b| && len <= 16
    requires DifferWithin(Covered(a, length), Covered(b, length), at, len)
    ensures Sealed(b, length, extra) <==> IsElusive(a, b, length)
    ensures len < 14 ==> !Sealed(b, length, extra)
  {
    hide Sealed, IsElusive, DifferWithin;
    if at + len <= 8 * BodyLen(length) {
      BodyDamage(a, b, length, extra, at, len);
    } else if at >= 8 * BodyLen(length) {
      ChecksumDamage(a, b, length, extra, at, len);
    } else {
      CrossingDamage(a, b, length, extra, at, len);
    }
  }

  // ----- an input

  /** The register after `n` bytes 0. */
  function AfterZeros(n: nat): bv16 {
    if n == 0 then X25_INIT_CRC else TimesX8(AfterZeros(n - 1))
  }

  lemma {:induction false} ZeroBytes(n: nat)
    ensures Serial(MessageUpward(seq(n, _ => 0)), X25_INIT_CRC) == AfterZeros(n)
  {
    hide Serial, BitsUpward, TimesX8;
    if n == 0 {
      SerialNothing(X25_INIT_CRC);
    } else {
      ZeroBytes(n - 1);
      var d: seq<bv8> := seq(n, _ => 0);
      assert d[..n - 1] == seq(n - 1, _ => 0) && d[..n] == d;
      NextByte(d, n - 1, X25_INIT_CRC);
      UpwardIsTimesX8(0, AfterZeros(n - 1));
      PendingZero(AfterZeros(n - 1));
    }
  }

  lemma PendingZero(c: bv16)
    ensures Xor(c, Pending(MirrorByte(0))) == c
  {}

  /** The registers after 0 to 10 bytes 0. */
  const ZERO_REGISTERS: seq<bv16> :=
    [0xffff, 0xe1f0, 0x1d0f, 0xcc9c, 0x84c0, 0x110c, 0x0e10, 0xf1ce, 0x313e, 0x1872, 0xe139]

  lemma {:induction false} RegistersOfZeros(n: nat)
    requires n <= 10
    ensures AfterZeros(n) == ZERO_REGISTERS[n]
  {
    if n > 0 {
      hide TimesX8, Shift8;
      RegistersOfZeros(n - 1);
      Shift8IsTimesX8(ZERO_REGISTERS[n - 1]);
      ShiftedRegisters();
    }
  }

  lemma ShiftedRegisters()
    ensures forall i :: 0 <= i < 10 ==> Shift8(ZERO_REGISTERS[i]) == ZERO_REGISTERS[i + 1]
  {
    var r := ZERO_REGISTERS;
    assert Shift8(r[0]) == r[1] && Shift8(r[1]) == r[2] && Shift8(r[2]) == r[3] && Shift8(r[3]) == r[4];
    assert Shift8(r[4]) == r[5] && Shift8(r[5]) == r[6] && Shift8(r[6]) == r[7] && Shift8(r[7]) == r[8];
    assert Shift8(r[8]) == r[9] && Shift8(r[9]) == r[10];
  }

  /** Two messages without a payload, and with `extra` 0, that differ in 14 bits in a row only.  Both are
      sealed. */
  const FIRST_MESSAGE: seq<bv8> := [MAVLINK_STX, 0, 0, 0, 0, 0, 0, 0, 0, 0, 0x87, 0x9c]
  const SECOND_MESSAGE: seq<bv8> := [MAVLINK_STX, 0, 0, 0, 0, 0, 0, 0, 0x88, 0x51, 0x86, 0x9c]

  lemma FirstChecksum()
    ensures Pair(0x87, 0x9c) == 0xe139
  {}

  lemma FirstIsSealed()
    ensures Sealed(FIRST_MESSAGE, 0, 0)
  {
    hide Serial, MessageUpward, AfterZeros, Pair;
    SealedByPair(FIRST_MESSAGE, 0, 0);
    var v := Covered(FIRST_MESSAGE, 0);
    assert v == [0, 0, 0, 0, 0, 0, 0, 0, 0, 0x87, 0x9c];
    assert v[..9] + [0] == seq(10, _ => 0);
    ZeroBytes(10);
    RegistersOfZeros(10);
    FirstChecksum();
  }

  /** The ends of the two messages. */
  lemma EndsDiffer()
    ensures DifferWithin([0, 0, 0x87, 0x9c], [0x88, 0x51, 0x86, 0x9c], 3, 14)
  {
    hide MessageUpward;
    FourBytes([0, 0, 0x87, 0x9c]);
    FourBytes([0x88, 0x51, 0x86, 0x9c]);
    assert BitsUpward(0x88)[..3] == BitsUpward(0)[..3];
    assert BitsUpward(0x86)[1..] == BitsUpward(0x87)[1..];
  }

  lemma ChangeOfEnds()
    ensures Change([0, 0, 0x87, 0x9c], [0x88, 0x51, 0x86, 0x9c]) == [0x88, 0x51, 0x01, 0x00]
  {}

  lemma SecondIsSealed()
    ensures Sealed(SECOND_MESSAGE, 0, 0)
  {
    hide Sealed, Pair, TimesX24, Shift24, Change;
    var v, w := Covered(FIRST_MESSAGE, 0), Covered(SECOND_MESSAGE, 0);
    FirstIsSealed();
    assert v[..7] == w[..7];
    SealAfterChange(FIRST_MESSAGE, SECOND_MESSAGE, 0, 0);
    assert v[7..] == [0, 0, 0x87, 0x9c] && w[7..] == [0x88, 0x51, 0x86, 0x9c];
    ChangeOfEnd(v, w, 7);
    ChangeOfEnds();
    var d: seq<bv8> := [0x88, 0x51, 0x01, 0x00];
    ElusivePairs(d);
    Shift24IsTimesX24(Pair(d[0], d[1]));
  }

  lemma ElusiveInput()
    ensures Sealed(FIRST_MESSAGE, 0, 0) && Sealed(SECOND_MESSAGE, 0, 0)
    ensures DifferWithin(Covered(FIRST_MESSAGE, 0), Covered(SECOND_MESSAGE, 0), 59, 14)
  {
    hide Sealed, DifferWithin;
    FirstIsSealed();
    SecondIsSealed();
    var start: seq<bv8> := [0, 0, 0, 0, 0, 0, 0];
    EndsDiffer();
    BurstPreceded(start, [0, 0, 0x87, 0x9c], [0x88, 0x51, 0x86, 0x9c], 3, 14);
    assert Covered(FIRST_MESSAGE, 0) == start + [0, 0, 0x87, 0x9c];
    assert Covered(SECOND_MESSAGE, 0) == start + [0x88, 0x51, 0x86, 0x9c];
  }
}
