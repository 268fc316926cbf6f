/** The two cyclic redundancy checks, both over x^16 + x^12 + x^5 + 1: `vt_crc16`, most significant
    bit first, and the X.25 checksum of section C.2 of RFC 1662 without its final complement, least
    significant bit first.  Neither uses a table: a byte goes in with a handful of shifts.

    The reference is schoolbook division of polynomials over GF(2), written as sequences of bits with
    the highest power first. */
module Crc {
  import opened Machine

  /** x^12 + x^5 + 1, what x^16 is congruent to. */
  const GENERATOR: bv16 := 0x1021

  const X25_INIT_CRC: bv16 := 0xffff

  // ----- the register, one bit at a time

  function Xor(a: bv16, b: bv16): bv16 { a ^ b }
  function Double(c: bv16): bv16 { c << 1 }
  function Top(c: bv16): bool { c & 0x8000 != 0 }
  function Tap(on: bool, g: bv16): bv16 { if on then g else 0 }

  /** Multiplication by x. */
  function TimesX(c: bv16): bv16 { Xor(Double(c), Tap(Top(c), GENERATOR)) }

  /** The register `c` after one more bit of the message. */
  function Step(c: bv16, bit: bool): bv16 { TimesX(Xor(c, Tap(bit, 0x8000))) }

  /** The register `c` after the bits `m`. */
  function Serial(m: seq<bool>, c: bv16): bv16 {
    if m == [] then c else Serial(m[1..], Step(c, m[0]))
  }

  /** The bits of a byte, the most significant first. */
  function ByteBits(b: bv8): (m: seq<bool>)
    ensures |m| == 8
  {
    [b & 0x80 != 0, b & 0x40 != 0, b & 0x20 != 0, b & 0x10 != 0, b & 8 != 0, b & 4 != 0, b & 2 != 0, b & 1 != 0]
  }

  /** The bits of a byte, the least significant first. */
  function BitsUpward(b: bv8): (m: seq<bool>)
    ensures |m| == 8
  {
    [b & 1 != 0, b & 2 != 0, b & 4 != 0, b & 8 != 0, b & 0x10 != 0, b & 0x20 != 0, b & 0x40 != 0, b & 0x80 != 0]
  }

  function Message(d: seq<bv8>): (m: seq<bool>)
    ensures |m| == 8 * |d|
  {
    if d == [] then [] else ByteBits(d[0]) + Message(d[1..])
  }

  function MessageUpward(d: seq<bv8>): (m: seq<bool>)
    ensures |m| == 8 * |d|
  {
    if d == [] then [] else BitsUpward(d[0]) + MessageUpward(d[1..])
  }

  // ----- composition

  lemma {:induction false} SerialConcat(m: seq<bool>, n: seq<bool>, c: bv16)
    ensures Serial(m + n, c) == Serial(n, Serial(m, c))
  {
    hide Step;
    if m == [] {
      assert m + n == n;
    } else {
      assert (m + n)[1..] == m[1..] + n;
      SerialConcat(m[1..], n, Step(c, m[0]));
    }
  }

  lemma {:induction false} MessageConcat(d: seq<bv8>, e: seq<bv8>)
    ensures Message(d + e) == Message(d) + Message(e)
  {
    hide ByteBits;
    if d == [] {
      assert d + e == e;
    } else {
      assert (d + e)[1..] == d[1..] + e;
      MessageConcat(d[1..], e);
    }
  }

  lemma {:induction false} MessageUpwardConcat(d: seq<bv8>, e: seq<bv8>)
    ensures MessageUpward(d + e) == MessageUpward(d) + MessageUpward(e)
  {
    hide BitsUpward;
    if d == [] {
      assert d + e == e;
    } else {
      assert (d + e)[1..] == d[1..] + e;
      MessageUpwardConcat(d[1..], e);
    }
  }

  /** One more byte. */
  lemma NextByte(d: seq<bv8>, i: nat, c: bv16)
    requires i < |d|
    ensures Serial(Message(d[..i + 1]), c) == Serial(ByteBits(d[i]), Serial(Message(d[..i]), c))
    ensures Serial(MessageUpward(d[..i + 1]), c) == Serial(BitsUpward(d[i]), Serial(MessageUpward(d[..i]), c))
  {
    hide ByteBits, BitsUpward, Serial;
    assert d[..i + 1] == d[..i] + [d[i]];
    MessageConcat(d[..i], [d[i]]);
    MessageUpwardConcat(d[..i], [d[i]]);
    assert [d[i]][1..] == [];
    assert ByteBits(d[i]) + [] == ByteBits(d[i]) && BitsUpward(d[i]) + [] == BitsUpward(d[i]);
    SerialConcat(Message(d[..i]), ByteBits(d[i]), c);
    SerialConcat(MessageUpward(d[..i]), BitsUpward(d[i]), c);
  }

  // ----- multiplication by x is linear

  lemma XorAssoc(a: bv16, b: bv16, c: bv16)
    ensures Xor(Xor(a, b), c) == Xor(a, Xor(b, c))
  {}

  lemma XorComm(a: bv16, b: bv16)
    ensures Xor(a, b) == Xor(b, a)
  {}

  lemma XorZero(a: bv16)
    ensures Xor(a, 0) == a && Xor(0, a) == a && Xor(a, a) == 0
  {}

  lemma XorSwap(a: bv16, b: bv16, c: bv16, d: bv16)
    ensures Xor(Xor(a, b), Xor(c, d)) == Xor(Xor(a, c), Xor(b, d))
  {
    hide Xor;
    XorAssoc(a, b, Xor(c, d));
    XorAssoc(b, c, d);
    XorComm(b, c);
    XorAssoc(c, b, d);
    XorAssoc(a, c, Xor(b, d));
  }

  lemma DoubleXor(x: bv16, y: bv16)
    ensures Double(Xor(x, y)) == Xor(Double(x), Double(y))
  {}

  lemma TopXor(x: bv16, y: bv16)
    ensures Top(Xor(x, y)) == (Top(x) != Top(y))
  {}

  lemma TapXor(on: bool, also: bool, g: bv16)
    ensures Tap(on != also, g) == Xor(Tap(on, g), Tap(also, g))
  {
    hide Xor;
    XorZero(g);
    XorZero(0);
  }

  lemma TimesXIsLinear(x: bv16, y: bv16)
    ensures TimesX(Xor(x, y)) == Xor(TimesX(x), TimesX(y))
  {
    hide Xor, Double, Top, Tap;
    DoubleXor(x, y);
    TopXor(x, y);
    TapXor(Top(x), Top(y), GENERATOR);
    XorSwap(Double(x), Double(y), Tap(Top(x), GENERATOR), Tap(Top(y), GENERATOR));
  }

  function TimesX4(x: bv16): bv16 { TimesX(TimesX(TimesX(TimesX(x)))) }
  function TimesX8(x: bv16): bv16 { TimesX4(TimesX4(x)) }

  lemma TimesX4IsLinear(x: bv16, y: bv16)
    ensures TimesX4(Xor(x, y)) == Xor(TimesX4(x), TimesX4(y))
  {
    hide TimesX, Xor;
    TimesXIsLinear(x, y);
    var x1, y1 := TimesX(x), TimesX(y);
    TimesXIsLinear(x1, y1);
    var x2, y2 := TimesX(x1), TimesX(y1);
    TimesXIsLinear(x2, y2);
    TimesXIsLinear(TimesX(x2), TimesX(y2));
  }

  lemma TimesX8IsLinear(x: bv16, y: bv16)
    ensures TimesX8(Xor(x, y)) == Xor(TimesX8(x), TimesX8(y))
  {
    hide TimesX4, Xor;
    TimesX4IsLinear(x, y);
    TimesX4IsLinear(TimesX4(x), TimesX4(y));
  }

  // ----- eight bits at once

  function Pending(b: bv8): bv16 { (b as bv16) << 8 }

  /** Bits still to come can be added to the register beforehand. */
  lemma StepAhead(s: bv16, w: bv16)
    ensures Xor(Step(s, Top(w)), Double(w)) == TimesX(Xor(s, w))
  {
    hide Xor, Double, Top;
    var bit := Tap(Top(w), 0x8000);
    TimesXIsLinear(s, w);
    TimesXIsLinear(s, bit);
    TimesXOfTop(Top(w));
    XorAssoc(TimesX(s), TimesX(bit), Double(w));
    XorComm(TimesX(bit), Double(w));
  }

  lemma TimesXOfTop(on: bool)
    ensures TimesX(Tap(on, 0x8000)) == Tap(on, GENERATOR)
  {}

  lemma TopsAreBits(b: bv8)
    ensures var w := Pending(b);
            var w2 := Double(Double(w));
            var w4 := Double(Double(w2));
            var w6 := Double(Double(w4));
            && Double(Double(w6)) == 0
            && ByteBits(b) == [Top(w), Top(Double(w)), Top(w2), Top(Double(w2)),
                               Top(w4), Top(Double(w4)), Top(w6), Top(Double(w6))]
  {}

  lemma SerialUnrolled(m: seq<bool>, c: bv16)
    requires |m| == 8
    ensures Serial(m, c)
         == Step(Step(Step(Step(Step(Step(Step(Step(c, m[0]), m[1]), m[2]), m[3]), m[4]), m[5]), m[6]), m[7])
  {
    hide Step;
    var m2, c2 := m[1..][1..], Step(Step(c, m[0]), m[1]);
    assert Serial(m, c) == Serial(m2, c2);
    var m4, c4 := m2[1..][1..], Step(Step(c2, m2[0]), m2[1]);
    assert Serial(m2, c2) == Serial(m4, c4);
    var m6, c6 := m4[1..][1..], Step(Step(c4, m4[0]), m4[1]);
    assert Serial(m4, c4) == Serial(m6, c6);
    var m8, c8 := m6[1..][1..], Step(Step(c6, m6[0]), m6[1]);
    assert Serial(m6, c6) == Serial(m8, c8);
    assert m8 == [];
  }

  lemma SerialIsTimesX8(b: bv8, c: bv16)
    ensures Serial(ByteBits(b), c) == TimesX8(Xor(c, Pending(b)))
  {
    var w := Pending(b);
    TopsAreBits(b);
    SerialUnrolled(ByteBits(b), c);
    hide Pending, Double, ByteBits, Top, Step, Xor, TimesX, Serial;
    var w1 := Double(w);
    var w2 := Double(w1);
    var w3 := Double(w2);
    var w4 := Double(w3);
    var w5 := Double(w4);
    var w6 := Double(w5);
    var c1 := Step(c, Top(w));
    var c2 := Step(c1, Top(w1));
    var c3 := Step(c2, Top(w2));
    var c4 := Step(c3, Top(w3));
    var c5 := Step(c4, Top(w4));
    var c6 := Step(c5, Top(w5));
    var c7 := Step(c6, Top(w6));
    StepAhead(c, w);
    StepAhead(c1, w1);
    StepAhead(c2, w2);
    StepAhead(c3, w3);
    StepAhead(c4, w4);
    StepAhead(c5, w5);
    StepAhead(c6, w6);
    StepAhead(c7, Double(w6));
    XorZero(Step(c7, Top(Double(w6))));
  }

  // ----- vt_crc16

  /** The two bytes of the source's union, on a little-endian machine. */
  function Low(c: bv16): bv8 { (c & 0xff) as bv8 }
  function High(c: bv16): bv8 { (c >> 8) as bv8 }
  function Join(high: bv8, low: bv8): bv16 { ((high as bv16) << 8) | (low as bv16) }

  function Plus(a: bv8, b: bv8): bv8 { a ^ b }
  function SwapNibbles(b: bv8): bv8 { (b << 4) | (b >> 4) }
  function Middle(c: bv16): bv16 { c & 0x0ff0 }

  function Upper(x: bv16): bv16 { x & 0xff00 }
  function Lower(x: bv16): bv16 { x & 0x00ff }

  /** What `Worker` computes, from the high byte with the data added and the low byte. */
  function Fold(r: bv8, a: bv8): bv16 {
    var h := SwapNibbles(r);
    var c := Middle(Join(h, Plus(h, r)));
    var d := Double(c);
    Join(Plus(High(d), Plus(a, Low(c))), Plus(Low(d), Plus(r, High(c))))
  }

  lemma HighPending(c: bv16, b: bv8)
    ensures High(Xor(c, Pending(b))) == Plus(b, High(c)) && Low(Xor(c, Pending(b))) == Low(c)
  {}

  lemma HalvesXor(x: bv16)
    ensures x == Xor(Upper(x), Lower(x))
  {}

  lemma LowerMovesUp(x: bv16)
    ensures TimesX8(Lower(x)) == Pending(Low(x))
  {}

  lemma UpperFolds(x: bv16)
    ensures TimesX8(Upper(x)) == Fold(High(x), 0)
  {}

  lemma JoinAdded(p: bv8, q: bv8, c: bv8, r: bv8)
    ensures Join(Plus(p, Plus(q, c)), r) == Xor(Join(Plus(p, Plus(0, c)), r), Pending(q))
  {}

  lemma FoldAdded(r: bv8, a: bv8)
    ensures Fold(r, a) == Xor(Fold(r, 0), Pending(a))
  {
    hide High, Low, Join, Xor, Plus, SwapNibbles, Middle, Double, Pending;
    var h := SwapNibbles(r);
    var c := Middle(Join(h, Plus(h, r)));
    JoinAdded(High(Double(c)), a, Low(c), Plus(Low(Double(c)), Plus(r, High(c))));
  }

  /** A byte at once is eight single bits. */
  lemma FoldIsSerial(b: bv8, c: bv16)
    ensures Fold(Plus(b, High(c)), Low(c)) == Serial(ByteBits(b), c)
  {
    hide Fold, TimesX8, Xor, Upper, Lower, High, Low, Plus, Pending, Serial, ByteBits;
    var x := Xor(c, Pending(b));
    SerialIsTimesX8(b, c);
    HighPending(c, b);
    HalvesXor(x);
    TimesX8IsLinear(Upper(x), Lower(x));
    LowerMovesUp(x);
    UpperFolds(x);
    FoldAdded(High(x), Low(x));
  }

  method Worker(icrc: bv16, data: bv8) returns (crc: bv16)
    ensures crc == Serial(ByteBits(data), icrc)
  {
    hide High, Low, Join, Serial, ByteBits, Plus, SwapNibbles, Middle, Double;
    FoldIsSerial(data, icrc);
    var r0 := Plus(data, High(icrc));
    var a1 := Low(icrc);
    var crch := SwapNibbles(r0);
    var crcl := Plus(crch, r0);
    crc := Middle(Join(crch, crcl));
    r0 := Plus(r0, High(crc));
    a1 := Plus(a1, Low(crc));
    crc := Double(crc);
    crcl := Plus(Low(crc), r0);
    crch := Plus(High(crc), a1);
    crc := Join(crch, crcl);
  }

  /** The index has 16 bits. */
  function NextIndex(i: nat): nat { (i + 1) % UINT16 }

  /** The index after `n` turns of the loop, whatever the length of the message. */
  function IndexAfter(n: nat): nat {
    if n == 0 then 0 else NextIndex(IndexAfter(n - 1))
  }

  lemma {:induction false} IndexWraps(n: nat)
    ensures IndexAfter(n) == n % UINT16
  {
    if n > 0 {
      hide NextIndex;
      IndexWraps(n - 1);
      NextIndexWraps(n - 1);
    }
  }

  lemma NextIndexWraps(n: nat)
    ensures NextIndex(n % UINT16) == (n + 1) % UINT16
  {}

  /** The guard of the loop fails after some number of turns exactly for the messages that are shorter
      than 65536 bytes. */
  lemma LoopEnds(size: nat)
    ensures (exists n: nat :: !(IndexAfter(n) < size)) <==> size < 65536
  {
    if size < UINT16 {
      IndexWraps(size);
      assert !(IndexAfter(size) < size);
    } else {
      forall n: nat
        ensures IndexAfter(n) < size
      {
        IndexWraps(n);
      }
    }
  }

  /** For the shortest message that is too long the loop goes on for ever. */
  lemma LoopDoesNotEnd(n: nat)
    ensures IndexAfter(n) < 65536
  {
    IndexWraps(n);
  }

  /** `vt_crc16`, for the messages on which its loop ends. */
  method VtCrc16(data: array<bv8>, size: nat, seed: bv16) returns (crc: bv16)
    requires size <= data.Length && size < 65536
    ensures crc == Serial(Message(data[..size]), seed)
  {
    hide Serial, ByteBits;
    var i := 0;
    crc := seed;
    SerialNothing(seed);
    ghost var turns := 0;
    while i < size
      invariant i <= size && i == IndexAfter(turns)
      invariant crc == Serial(Message(data[..i]), seed)
      decreases size - i
    {
      NextByte(data[..], i, seed);
      assert data[..][..i] == data[..i] && data[..][..i + 1] == data[..i + 1];
      crc := Worker(crc, data[i]);
      i := NextIndex(i);
      turns := turns + 1;
    }
  }

  lemma SerialNothing(c: bv16)
    ensures Serial([], c) == c
  {}

  // ----- the register as a polynomial

  /** The coefficient of x^(15 - i). */
  predicate Bit(c: bv16, i: nat)
    decreases i
  {
    if i == 0 then Top(c) else Bit(Double(c), i - 1)
  }

  function Coefficients(c: bv16): (p: seq<bool>)
    ensures |p| == 16
  {
    seq(16, i requires 0 <= i < 16 => Bit(c, i))
  }

  lemma {:induction false} BitXor(c: bv16, d: bv16, i: nat)
    ensures Bit(Xor(c, d), i) == (Bit(c, i) != Bit(d, i))
    decreases i
  {
    hide Xor, Double, Top;
    if i == 0 {
      TopXor(c, d);
    } else {
      DoubleXor(c, d);
      BitXor(Double(c), Double(d), i - 1);
    }
  }

  lemma {:induction false} BitZero(i: nat)
    ensures !Bit(0, i)
    decreases i
  {
    assert Double(0) == 0;
    if i > 0 {
      BitZero(i - 1);
    }
  }

  lemma FourOn(c: bv16, i: nat)
    ensures Bit(c, i + 4) == Bit(Double(Double(Double(Double(c)))), i)
  {
    hide Double, Top;
    NextBit(c, i + 3);
    NextBit(Double(c), i + 2);
    NextBit(Double(Double(c)), i + 1);
    NextBit(Double(Double(Double(c))), i);
  }

  lemma LastBit(c: bv16)
    ensures !Bit(Double(c), 15)
  {
    hide Double, Top, Bit;
    var d := Double(c);
    var d4 := Double(Double(Double(Double(d))));
    var d8 := Double(Double(Double(Double(d4))));
    var d12 := Double(Double(Double(Double(d8))));
    FourOn(d, 11);
    FourOn(d4, 7);
    FourOn(d8, 3);
    NextBit(d12, 2);
    NextBit(Double(d12), 1);
    NextBit(Double(Double(d12)), 0);
    TopIsBit(Double(Double(Double(d12))));
    DoubledAway(d, c);
  }

  lemma DoubledAway(d: bv16, c: bv16)
    requires d == Double(c)
    ensures var d4 := Double(Double(Double(Double(d))));
            var d8 := Double(Double(Double(Double(d4))));
            var d12 := Double(Double(Double(Double(d8))));
            !Top(Double(Double(Double(d12))))
  {}

  lemma StepBits(c: bv16, bit: bool, i: nat)
    requires i < 16
    ensures Bit(Step(c, bit), i)
        <==> ((i < 15 && Bit(c, i + 1)) != ((Top(c) != bit) && Bit(GENERATOR, i)))
  {
    hide Xor, Double, Top, Bit;
    var x := Tap(bit, 0x8000);
    TopXor(c, x);
    TopAlone(bit);
    BitXor(Double(Xor(c, x)), Tap(Top(Xor(c, x)), GENERATOR), i);
    BitZero(i);
    DoubleXor(c, x);
    XorZero(Double(c));
    assert Bit(Double(c), i) == (i < 15 && Bit(c, i + 1)) by {
      LastBit(c);
      NextBit(c, i);
    }
    assert Step(c, bit) == Xor(Double(c), Tap(Top(c) != bit, GENERATOR));
    assert Bit(Tap(Top(c) != bit, GENERATOR), i) == ((Top(c) != bit) && Bit(GENERATOR, i));
  }

  lemma NextBit(c: bv16, i: nat)
    ensures Bit(c, i + 1) == Bit(Double(c), i)
  {
    hide Double, Top;
  }

  lemma TopAlone(on: bool)
    ensures Top(Tap(on, 0x8000)) == on && Double(Tap(on, 0x8000)) == 0
  {}

  lemma TopIsBit(c: bv16)
    ensures Top(c) == Bit(c, 0)
  {}

  lemma LowestCoefficient()
    ensures Bit(GENERATOR, 15)
  {
    var g4 := Double(Double(Double(Double(GENERATOR))));
    var g8 := Double(Double(Double(Double(g4))));
    FourOn(GENERATOR, 11);
    FourOn(g4, 7);
    FourOn(g8, 3);
    FirstFour(Double(Double(Double(Double(g8)))));
    hide Bit;
  }

  lemma BitsDetermine(c: bv16, d: bv16)
    requires forall i :: 0 <= i < 16 ==> Bit(c, i) == Bit(d, i)
    ensures c == d
  {
    var x := Xor(c, d);
    forall i | 0 <= i < 16
      ensures !Bit(x, i)
    {
      BitXor(c, d, i);
    }
    NoBits(x);
    hide Bit;
    XorEqual(c, d);
  }

  lemma XorEqual(c: bv16, d: bv16)
    requires Xor(c, d) == 0
    ensures c == d
  {
    hide Xor;
    XorAssoc(c, d, d);
    XorZero(c);
    XorZero(d);
  }

  lemma FirstFour(x: bv16)
    ensures Bit(x, 0) == Top(x) && Bit(x, 1) == Top(Double(x))
    ensures Bit(x, 2) == Top(Double(Double(x))) && Bit(x, 3) == Top(Double(Double(Double(x))))
  {
    hide Double, Top;
  }

  lemma NoBits(x: bv16)
    requires forall i :: 0 <= i < 16 ==> !Bit(x, i)
    ensures x == 0
  {
    hide Double, Top, Bit;
    var x4 := Double(Double(Double(Double(x))));
    var x8 := Double(Double(Double(Double(x4))));
    var x12 := Double(Double(Double(Double(x8))));
    FirstFour(x);
    FirstFour(x4);
    FirstFour(x8);
    FirstFour(x12);
    forall i | 0 <= i < 4
      ensures !Bit(x, i) && !Bit(x4, i) && !Bit(x8, i) && !Bit(x12, i)
    {
      FourOn(x, i);
      FourOn(x, i + 4);
      FourOn(x4, i);
      FourOn(x, i + 8);
      FourOn(x4, i + 4);
      FourOn(x8, i);
    }
    NothingSet(x);
  }

  lemma NothingSet(x: bv16)
    requires !Top(x) && !Top(Double(x)) && !Top(Double(Double(x))) && !Top(Double(Double(Double(x))))
    requires var x4 := Double(Double(Double(Double(x))));
             var x8 := Double(Double(Double(Double(x4))));
             var x12 := Double(Double(Double(Double(x8))));
             && !Top(x4) && !Top(Double(x4)) && !Top(Double(Double(x4))) && !Top(Double(Double(Double(x4))))
             && !Top(x8) && !Top(Double(x8)) && !Top(Double(Double(x8))) && !Top(Double(Double(Double(x8))))
             && !Top(x12) && !Top(Double(x12)) && !Top(Double(Double(x12))) && !Top(Double(Double(Double(x12))))
    ensures x == 0
  {}

  // ----- schoolbook division

  /** One step of the division of `p`: the multiple of the generator polynomial that clears the
      highest coefficient is subtracted, and that coefficient dropped. */
  function Reduced(p: seq<bool>): (q: seq<bool>)
    requires |p| > 16
    ensures |q| == |p| - 1
  {
    seq(|p| - 1, i requires 0 <= i < |p| - 1 => p[i + 1] != (p[0] && i < 16 && Bit(GENERATOR, i)))
  }

  /** The remainder of `p` on division by x^16 + x^12 + x^5 + 1. */
  function Remainder(p: seq<bool>): (q: seq<bool>)
    requires |p| >= 16
    ensures |q| == 16
    decreases |p|
  {
    if |p| == 16 then p else Remainder(Reduced(p))
  }

  /** m x^16 + c x^|m| */
  function Dividend(m: seq<bool>, c: bv16): (p: seq<bool>)
    ensures |p| == |m| + 16
  {
    seq(|m| + 16, i requires 0 <= i < |m| + 16 => (i < |m| && m[i]) != (i < 16 && Bit(c, i)))
  }

  lemma DividendReduced(m: seq<bool>, c: bv16)
    requires m != []
    ensures Reduced(Dividend(m, c)) == Dividend(m[1..], Step(c, m[0]))
  {
    hide Step, Bit;
    TopIsBit(c);
    var p, q := Dividend(m, c), Dividend(m[1..], Step(c, m[0]));
    forall i | 0 <= i < |m| + 15
      ensures Reduced(p)[i] == q[i]
    {
      if i < 16 {
        StepBits(c, m[0], i);
      }
    }
  }

  lemma {:induction false} SerialIsRemainder(m: seq<bool>, c: bv16)
    ensures Coefficients(Serial(m, c)) == Remainder(Dividend(m, c))
  {
    hide Step, Bit, Reduced;
    if m == [] {
      assert Dividend(m, c) == Coefficients(c);
    } else {
      DividendReduced(m, c);
      SerialIsRemainder(m[1..], Step(c, m[0]));
    }
  }

  // ----- what is detected

  /** If two messages of at most 16 bits end in the same register, the registers they started from
      differ exactly where the messages do. */
  lemma {:induction false} SerialBackwards(m: seq<bool>, n: seq<bool>, c: bv16, d: bv16, i: nat)
    requires |m| == |n| <= 16 && Serial(m, c) == Serial(n, d) && i < 16
    ensures (Bit(c, i) != Bit(d, i)) <==> (i < |m| && m[i] != n[i])
  {
    hide Step, Bit;
    if m != [] {
      var c1, d1 := Step(c, m[0]), Step(d, n[0]);
      TopIsBit(c);
      TopIsBit(d);
      LowestCoefficient();
      SerialBackwards(m[1..], n[1..], c1, d1, 15);
      StepBits(c, m[0], 15);
      StepBits(d, n[0], 15);
      assert (Top(c) != m[0]) == (Top(d) != n[0]);
      if i > 0 {
        SerialBackwards(m[1..], n[1..], c1, d1, i - 1);
        StepBits(c, m[0], i - 1);
        StepBits(d, n[0], i - 1);
      }
    }
  }

  /** The same message takes different registers to different registers. */
  lemma {:induction false} SerialInjective(m: seq<bool>, c: bv16, d: bv16)
    requires Serial(m, c) == Serial(m, d)
    ensures c == d
  {
    hide Step, Bit;
    if m != [] {
      SerialInjective(m[1..], Step(c, m[0]), Step(d, m[0]));
      forall i | 0 <= i < 16
        ensures Bit(c, i) == Bit(d, i)
      {
        assert Serial([m[0]], c) == Serial([m[0]], d) by {
          assert [m[0]][1..] == [];
        }
        SerialBackwards([m[0]], [m[0]], c, d, i);
      }
      BitsDetermine(c, d);
    }
  }

  /** Every change within a window of 16 bits shows. */
  lemma BurstDetected(m: seq<bool>, n: seq<bool>, at: nat, len: nat, c: bv16)
    requires |m| == |n| && m != n && len <= 16 && at + len <= |m|
    requires m[..at] == n[..at] && m[at + len..] == n[at + len..]
    ensures Serial(m, c) != Serial(n, c)
  {
    hide Serial, Bit;
    var v, w, tail, d := m[at..at + len], n[at..at + len], m[at + len..], Serial(m[..at], c);
    assert m == m[..at] + (v + tail) && n == n[..at] + (w + tail);
    var i :| 0 <= i < len && v[i] != w[i];
    SerialConcat(m[..at], v + tail, c);
    SerialConcat(m[..at], w + tail, c);
    SerialConcat(v, tail, d);
    SerialConcat(w, tail, d);
    if Serial(m, c) == Serial(n, c) {
      SerialInjective(tail, Serial(v, d), Serial(w, d));
      SerialBackwards(v, w, d, d, i);
    }
  }

  lemma ByteBitsInjective(a: bv8, b: bv8)
    requires ByteBits(a) == ByteBits(b)
    ensures a == b
  {
    var m, n := ByteBits(a), ByteBits(b);
    assert m[0] == n[0] && m[1] == n[1] && m[2] == n[2] && m[3] == n[3];
    assert m[4] == n[4] && m[5] == n[5] && m[6] == n[6] && m[7] == n[7];
  }

  lemma {:induction false} MessageInjective(d: seq<bv8>, e: seq<bv8>)
    requires |d| == |e| && Message(d) == Message(e)
    ensures d == e
  {
    hide ByteBits;
    if d != [] {
      var m, n := Message(d), Message(e);
      assert ByteBits(d[0]) == m[..8] && ByteBits(e[0]) == n[..8];
      assert Message(d[1..]) == m[8..] && Message(e[1..]) == n[8..];
      ByteBitsInjective(d[0], e[0]);
      MessageInjective(d[1..], e[1..]);
      assert d == [d[0]] + d[1..] && e == [e[0]] + e[1..];
    }
  }

  /** The CRC of a message whose bytes differ, but within a burst of 16 bits only, differs. */
  lemma ByteBurstDetected(d: seq<bv8>, e: seq<bv8>, at: nat, len: nat, c: bv16)
    requires |d| == |e| && d != e && len <= 16 && at + len <= 8 * |d|
    requires Message(d)[..at] == Message(e)[..at] && Message(d)[at + len..] == Message(e)[at + len..]
    ensures Serial(Message(d), c) != Serial(Message(e), c)
  {
    if Message(d) == Message(e) {
      MessageInjective(d, e);
    }
    BurstDetected(Message(d), Message(e), at, len, c);
  }

  // ----- the mirror image

  /** The register with its bits in reverse order. */
  function Mirror(c: bv16): bv16 {
    var c8 := (c >> 8) | (c << 8);
    var c4 := ((c8 & 0xf0f0) >> 4) | ((c8 & 0x0f0f) << 4);
    var c2 := ((c4 & 0xcccc) >> 2) | ((c4 & 0x3333) << 2);
    ((c2 & 0xaaaa) >> 1) | ((c2 & 0x5555) << 1)
  }

  function MirrorByte(b: bv8): bv8 { High(Mirror(b as bv16)) }

  function Reversed(d: seq<bv8>): (r: seq<bv8>)
    ensures |r| == |d|
  {
    seq(|d|, i requires 0 <= i < |d| => MirrorByte(d[i]))
  }

  /** The register moved up by `q` nibbles. */
  function Nibble(c: bv16, q: nat): bv16
    requires q < 4
  {
    if q == 0 then c else if q == 1 then c << 4 else if q == 2 then c << 8 else c << 12
  }

  lemma NextNibble(c: bv16, q: nat)
    requires q < 3
    ensures Nibble(c, q + 1) == Double(Double(Double(Double(Nibble(c, q)))))
  {}

  lemma {:induction false} BitInNibble(c: bv16, q: nat, r: nat)
    requires q < 4
    ensures Bit(c, 4 * q + r) == Bit(Nibble(c, q), r)
    decreases q
  {
    if q > 0 {
      hide Double, Bit, Nibble;
      NextNibble(c, q - 1);
      FourOn(Nibble(c, q - 1), r);
      BitInNibble(c, q - 1, r + 4);
    }
  }

  /** The four highest bits in order, and in reverse order. */
  function TopFour(c: bv16): seq<bool> {
    [Top(c), Top(Double(c)), Top(Double(Double(c))), Top(Double(Double(Double(c))))]
  }
  function TopFourReversed(c: bv16): seq<bool> {
    [Top(Double(Double(Double(c)))), Top(Double(Double(c))), Top(Double(c)), Top(c)]
  }

  lemma OuterNibblesMirrored(c: bv16)
    ensures TopFour(Nibble(Mirror(c), 0)) == TopFourReversed(Nibble(c, 3))
    ensures TopFour(Nibble(Mirror(c), 3)) == TopFourReversed(Nibble(c, 0))
  {}

  lemma InnerNibblesMirrored(c: bv16)
    ensures TopFour(Nibble(Mirror(c), 1)) == TopFourReversed(Nibble(c, 2))
    ensures TopFour(Nibble(Mirror(c), 2)) == TopFourReversed(Nibble(c, 1))
  {}

  lemma BitInFour(c: bv16, r: nat)
    requires r < 4
    ensures Bit(c, r) == TopFour(c)[r] == TopFourReversed(c)[3 - r]
  {
    hide Bit, Top, Double;
    FirstFour(c);
  }

  lemma MirrorReverses(c: bv16, i: nat)
    requires i < 16
    ensures Bit(Mirror(c), i) == Bit(c, 15 - i)
  {
    hide Bit, Top, Double, Mirror, Nibble, TopFour, TopFourReversed;
    var q, r := i / 4, i % 4;
    var x, y := Nibble(Mirror(c), q), Nibble(c, 3 - q);
    BitInNibble(Mirror(c), q, r);
    BitInNibble(c, 3 - q, 3 - r);
    BitInFour(x, r);
    BitInFour(y, 3 - r);
    OuterNibblesMirrored(c);
    InnerNibblesMirrored(c);
    assert q == 0 || q == 1 || q == 2 || q == 3;
    assert TopFour(x) == TopFourReversed(y);
    assert 4 * (3 - q) + (3 - r) == 15 - i;
  }

  lemma MirrorTwice(c: bv16)
    ensures Mirror(Mirror(c)) == c
  {}

  lemma MirrorXor(c: bv16, d: bv16)
    ensures Mirror(Xor(c, d)) == Xor(Mirror(c), Mirror(d))
  {
    hide Mirror, Xor, Bit;
    var x, y := Mirror(Xor(c, d)), Xor(Mirror(c), Mirror(d));
    forall i | 0 <= i < 16
      ensures Bit(x, i) == Bit(y, i)
    {
      MirrorReverses(Xor(c, d), i);
      MirrorReverses(c, i);
      MirrorReverses(d, i);
      BitXor(c, d, 15 - i);
      BitXor(Mirror(c), Mirror(d), i);
    }
    BitsDetermine(x, y);
  }

  lemma MirrorByteReverses(b: bv8)
    ensures ByteBits(MirrorByte(b)) == BitsUpward(b)
    ensures MirrorByte(MirrorByte(b)) == b
  {}

  /** Least significant bit first is most significant bit first on the mirrored bytes. */
  lemma {:induction false} MessageMirrored(d: seq<bv8>)
    ensures Message(Reversed(d)) == MessageUpward(d)
  {
    hide ByteBits, BitsUpward, MirrorByte;
    if d != [] {
      MirrorByteReverses(d[0]);
      assert Reversed(d)[1..] == Reversed(d[1..]);
      MessageMirrored(d[1..]);
    }
  }

  // ----- the X.25 checksum

  function Widen(b: bv8): bv16 { b as bv16 }

  /** What `Accumulate` adds to the high byte, for the low byte with the data added. */
  function Spread(t: bv8): bv16 { Xor(Xor(Widen(t) << 8, Widen(t) << 3), Widen(t >> 4)) }
  function Tangle(r: bv8): bv8 { Plus(r, r << 4) }

  lemma SpreadMirrored(r: bv8)
    ensures Mirror(Spread(Tangle(r))) == Fold(MirrorByte(r), 0)
  {}

  lemma MirrorHalves(c: bv16)
    ensures MirrorByte(Low(c)) == High(Mirror(c)) && MirrorByte(High(c)) == Low(Mirror(c))
  {}

  lemma MirrorWiden(b: bv8)
    ensures Mirror(Widen(b)) == Pending(MirrorByte(b))
  {}

  lemma MirrorBytePlus(a: bv8, b: bv8)
    ensures MirrorByte(Plus(a, b)) == Plus(MirrorByte(a), MirrorByte(b))
  {
    WidenPlus(a, b);
    MirrorXor(Widen(a), Widen(b));
    HighXor(Mirror(Widen(a)), Mirror(Widen(b)));
    hide Mirror, Xor, Plus, High;
  }

  lemma WidenPlus(a: bv8, b: bv8)
    ensures Widen(Plus(a, b)) == Xor(Widen(a), Widen(b))
  {}

  lemma HighXor(c: bv16, d: bv16)
    ensures High(Xor(c, d)) == Plus(High(c), High(d))
  {}

  lemma AccumulateIsMirrored(b: bv8, c: bv16)
    ensures Mirror(Xor(Widen(High(c)), Spread(Tangle(Plus(b, Low(c)))))) == Serial(BitsUpward(b), Mirror(c))
  {
    hide Mirror, Xor, Spread, Tangle, Plus, High, Low, Widen, Serial, ByteBits, BitsUpward, MirrorByte, Fold, Pending;
    var r := Plus(b, Low(c));
    MirrorXor(Widen(High(c)), Spread(Tangle(r)));
    MirrorWiden(High(c));
    SpreadMirrored(r);
    MirrorHalves(c);
    MirrorBytePlus(b, Low(c));
    FoldAdded(MirrorByte(r), MirrorByte(High(c)));
    XorComm(Fold(MirrorByte(r), 0), Pending(MirrorByte(High(c))));
    FoldIsSerial(MirrorByte(b), Mirror(c));
    MirrorByteReverses(b);
  }

  /** The accumulator that the source passes by pointer. */
  class Checksum {
    var crc: bv16

    /** Not initialised before `Init`. */
    constructor () {
    }

    method Init()
      modifies this
      ensures crc == X25_INIT_CRC
    {
      crc := X25_INIT_CRC;
    }

    method Accumulate(data: bv8)
      modifies this
      ensures Mirror(crc) == Serial(BitsUpward(data), Mirror(old(crc)))
    {
      hide Mirror, Xor, Plus, High, Low, Widen, Tangle, Spread, Serial, BitsUpward;
      AccumulateIsMirrored(data, crc);
      var tmp := Plus(data, Low(crc));
      tmp := Tangle(tmp);
      crc := Xor(Widen(High(crc)), Spread(tmp));
    }

    method AccumulateBuffer(buffer: array<bv8>, from: nat, length: nat)
      requires from + length <= buffer.Length && length < 65536
      modifies this
      ensures Mirror(crc) == Serial(MessageUpward(buffer[from..from + length]), Mirror(old(crc)))
    {
      hide Mirror, Serial, BitsUpward;
      ghost var d, c := buffer[from..from + length], Mirror(crc);
      SerialNothing(c);
      assert d[..0] == [];
      var left, i := length, 0;
      while left != 0
        invariant i + left == length
        invariant Mirror(crc) == Serial(MessageUpward(d[..i]), c)
        decreases left
      {
        hide MessageUpward;
        NextByte(d, i, c);
        left := left - 1;
        Accumulate(buffer[from + i]);
        i := i + 1;
      }
      assert d[..length] == d;
    }

    method Calculate(buffer: array<bv8>, from: nat, length: nat)
      requires from + length <= buffer.Length && length < 65536
      modifies this
      ensures crc == Mirror(Serial(Message(Reversed(buffer[from..from + length])), X25_INIT_CRC))
      ensures Mirror(crc) == Serial(Message(Reversed(buffer[from..from + length])), X25_INIT_CRC)
    {
      hide Mirror, Serial, BitsUpward, ByteBits;
      Init();
      AccumulateBuffer(buffer, from, length);
      MessageMirrored(buffer[from..from + length]);
      InitMirrored();
      MirrorTwice(crc);
    }
  }

  lemma InitMirrored()
    ensures Mirror(X25_INIT_CRC) == X25_INIT_CRC
  {}

  lemma UpwardInjective(d: seq<bv8>, e: seq<bv8>)
    requires |d| == |e| && MessageUpward(d) == MessageUpward(e)
    ensures d == e
  {
    hide MirrorByte;
    MessageMirrored(d);
    MessageMirrored(e);
    MessageInjective(Reversed(d), Reversed(e));
    forall i | 0 <= i < |d| ensures d[i] == e[i] {
      MirrorByteReverses(d[i]);
      MirrorByteReverses(e[i]);
      assert Reversed(d)[i] == Reversed(e)[i];
    }
  }

  /** As `ByteBurstDetected`, for the X.25 checksum. */
  lemma UpwardBurstDetected(d: seq<bv8>, e: seq<bv8>, at: nat, len: nat, c: bv16)
    requires |d| == |e| && d != e && len <= 16 && at + len <= 8 * |d|
    requires MessageUpward(d)[..at] == MessageUpward(e)[..at]
    requires MessageUpward(d)[at + len..] == MessageUpward(e)[at + len..]
    ensures Serial(MessageUpward(d), c) != Serial(MessageUpward(e), c)
  {
    hide Serial;
    if MessageUpward(d) == MessageUpward(e) {
      UpwardInjective(d, e);
    }
    BurstDetected(MessageUpward(d), MessageUpward(e), at, len, c);
  }
}
