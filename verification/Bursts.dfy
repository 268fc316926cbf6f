/** What happens at the end of a message that carries its X.25 checksum: there two bytes of the message,
    one byte that is not sent, and the two bytes of the checksum follow one another. */
module Bursts {
  import opened Crc

  // ----- two bytes at once

  /** Two bytes as they enter the register of the X.25 checksum, the earlier one on the high side. */
  function Pair(a: bv8, b: bv8): bv16 { Join(MirrorByte(a), MirrorByte(b)) }

  lemma PairPlus(a: bv8, b: bv8, c: bv8, d: bv8)
    ensures Pair(Plus(a, c), Plus(b, d)) == Xor(Pair(a, b), Pair(c, d))
  {
    hide MirrorByte, Plus, Xor, Join;
    MirrorBytePlus(a, c);
    MirrorBytePlus(b, d);
    JoinPlus(MirrorByte(a), MirrorByte(b), MirrorByte(c), MirrorByte(d));
  }

  lemma JoinPlus(a: bv8, b: bv8, c: bv8, d: bv8)
    ensures Join(Plus(a, c), Plus(b, d)) == Xor(Join(a, b), Join(c, d))
  {}

  lemma MirrorIsPair(high: bv8, low: bv8)
    ensures Mirror(Join(high, low)) == Pair(low, high)
  {
    hide Mirror, MirrorByte, Join, High, Low;
    var c := Join(high, low);
    HalvesJoined(high, low);
    MirrorHalves(c);
    JoinedHalves(Mirror(c));
  }

  lemma HalvesJoined(high: bv8, low: bv8)
    ensures High(Join(high, low)) == high && Low(Join(high, low)) == low
  {}

  lemma JoinedHalves(c: bv16)
    ensures Join(High(c), Low(c)) == c
  {}

  lemma UpperNibbles(c: bv16)
    ensures var m := ByteBits(High(c));
            && TopFour(Nibble(c, 0)) == [m[0], m[1], m[2], m[3]]
            && TopFour(Nibble(c, 1)) == [m[4], m[5], m[6], m[7]]
  {}

  lemma LowerNibbles(c: bv16)
    ensures var m := ByteBits(Low(c));
            && TopFour(Nibble(c, 2)) == [m[0], m[1], m[2], m[3]]
            && TopFour(Nibble(c, 3)) == [m[4], m[5], m[6], m[7]]
  {}

  /** The bits of a pair are the bits of its bytes, the least significant first. */
  lemma BitOfPair(a: bv8, b: bv8, i: nat)
    requires i < 16
    ensures Bit(Pair(a, b), i) == (BitsUpward(a) + BitsUpward(b))[i]
  {
    hide Bit, TopFour, Nibble, ByteBits, BitsUpward, MirrorByte, Join, High, Low;
    var c, q, r := Pair(a, b), i / 4, i % 4;
    MirrorByteReverses(a);
    MirrorByteReverses(b);
    HalvesJoined(MirrorByte(a), MirrorByte(b));
    UpperNibbles(c);
    LowerNibbles(c);
    BitInNibble(c, q, r);
    FourBits(Nibble(c, q), r);
    assert q == 0 || q == 1 || q == 2 || q == 3;
  }

  lemma FourBits(c: bv16, r: nat)
    requires r < 4
    ensures |TopFour(c)| == 4 && TopFour(c)[r] == Bit(c, r)
  {
    BitInFour(c, r);
  }

  /** Multiplication by x^24: two bytes, and one more that is the same for both messages. */
  function TimesX24(x: bv16): bv16 { TimesX8(TimesX8(TimesX8(x))) }

  lemma UpwardIsTimesX8(b: bv8, c: bv16)
    ensures Serial(BitsUpward(b), c) == TimesX8(Xor(c, Pending(MirrorByte(b))))
  {
    hide Serial, BitsUpward, ByteBits, MirrorByte, TimesX8, Xor, Pending;
    MirrorByteReverses(b);
    SerialIsTimesX8(MirrorByte(b), c);
  }

  lemma WidenIsLow(b: bv8)
    ensures Lower(Widen(b)) == Widen(b) && Low(Widen(b)) == b
  {}

  lemma JoinInTwo(a: bv8, b: bv8)
    ensures Join(a, b) == Xor(Pending(a), Widen(b))
    ensures TimesX8(Widen(b)) == Pending(b)
  {
    WidenIsLow(b);
    LowerMovesUp(Widen(b));
    hide TimesX8;
  }

  /** The register after two bytes and a third. */
  lemma PairAbsorbed(a: bv8, b: bv8, e: bv8, c: bv16)
    ensures Serial(BitsUpward(e), Serial(BitsUpward(b), Serial(BitsUpward(a), c)))
         == Xor(TimesX24(Pair(a, b)), Xor(TimesX24(c), TimesX8(Pending(MirrorByte(e)))))
  {
    hide Serial, BitsUpward, MirrorByte, TimesX8, Xor, Pending, Widen, Join;
    var p, q, r := Pending(MirrorByte(a)), Widen(MirrorByte(b)), Pending(MirrorByte(e));
    JoinInTwo(MirrorByte(a), MirrorByte(b));
    UpwardIsTimesX8(a, c);
    UpwardIsTimesX8(b, TimesX8(Xor(c, p)));
    var d := TimesX8(Xor(TimesX8(Xor(c, p)), TimesX8(q)));
    UpwardIsTimesX8(e, d);
    TimesX8IsLinear(Xor(c, p), q);
    XorAssoc(c, p, q);
    assert d == TimesX8(TimesX8(Xor(c, Pair(a, b))));
    TimesX8IsLinear(d, r);
    TimesX24IsLinear(c, Pair(a, b));
    var x, y, z := TimesX24(c), TimesX24(Pair(a, b)), TimesX8(r);
    XorComm(x, y);
    XorAssoc(y, x, z);
  }

  lemma TimesX24IsLinear(x: bv16, y: bv16)
    ensures TimesX24(Xor(x, y)) == Xor(TimesX24(x), TimesX24(y))
  {
    hide TimesX8, Xor;
    TimesX8IsLinear(x, y);
    TimesX8IsLinear(TimesX8(x), TimesX8(y));
    TimesX8IsLinear(TimesX8(TimesX8(x)), TimesX8(TimesX8(y)));
  }

  // ----- bursts across the end of the message

  /** The coefficients from the `s`-th on. */
  function From(s: nat): bv16 {
    if s == 0 then 0xffff else From(s - 1) >> 1
  }

  lemma {:induction false} FromIsLow(s: nat)
    ensures From(s) & (From(s) + 1) == 0
  {
    if s > 0 {
      FromIsLow(s - 1);
      HalfIsLow(From(s - 1));
    }
  }

  lemma HalfIsLow(m: bv16)
    requires m & (m + 1) == 0
    ensures (m >> 1) & ((m >> 1) + 1) == 0
  {}

  lemma {:induction false} LeadingZeros(x: bv16, s: nat)
    requires forall i :: 0 <= i < s ==> !Bit(x, i)
    ensures x <= From(s)
    decreases s
  {
    hide Top, Double, Bit;
    if s > 0 {
      forall i | 0 <= i < s - 1 ensures !Bit(Double(x), i) {
        NextBit(x, i);
      }
      LeadingZeros(Double(x), s - 1);
      TopIsBit(x);
      HalveBelow(x, From(s - 1));
    } else {
      AtMostAll(x);
    }
  }

  lemma AtMostAll(x: bv16)
    ensures x <= 0xffff
  {}

  lemma HalveBelow(x: bv16, m: bv16)
    requires !Top(x) && Double(x) <= m
    ensures x <= m >> 1
  {}

  lemma {:induction false} TrailingZeros(y: bv16, s: nat)
    requires forall i :: s <= i < 16 ==> !Bit(y, i)
    ensures y & From(s) == 0
    decreases s
  {
    hide Top, Double, Bit;
    if s == 0 {
      NoBits(y);
    } else {
      forall i | s - 1 <= i < 16 ensures !Bit(Double(y), i) {
        if i == 15 {
          LastBit(y);
        } else {
          NextBit(y, i);
        }
      }
      TrailingZeros(Double(y), s - 1);
      HalveApart(y, From(s - 1));
    }
  }

  lemma HalveApart(y: bv16, m: bv16)
    requires Double(y) & m == 0
    ensures y & (m >> 1) == 0
  {}

  /** What a byte that leaves the register brings back into it. */
  function Feedback(b: bv8): bv16 {
    var t := Widen(b ^ (b >> 4));
    (t << 12) ^ (t << 5) ^ t
  }

  /** `TimesX8` without a case distinction. */
  function Shift8(x: bv16): bv16 { Xor(Feedback(High(x)), x << 8) }

  lemma FoldIsFeedback(b: bv8)
    ensures Fold(b, 0) == Feedback(b)
  {}

  lemma PendingLow(x: bv16)
    ensures Pending(Low(x)) == x << 8
  {}

  lemma Shift8IsTimesX8(x: bv16)
    ensures TimesX8(x) == Shift8(x)
  {
    hide TimesX8, Xor, Upper, Lower, Fold, High, Low, Pending, Feedback;
    HalvesXor(x);
    TimesX8IsLinear(Upper(x), Lower(x));
    UpperFolds(x);
    LowerMovesUp(x);
    FoldIsFeedback(High(x));
    PendingLow(x);
  }

  function Shift24(x: bv16): bv16 { Shift8(Shift8(Shift8(x))) }

  lemma Shift24IsTimesX24(x: bv16)
    ensures TimesX24(x) == Shift24(x)
  {
    hide TimesX8, Shift8;
    Shift8IsTimesX8(x);
    Shift8IsTimesX8(TimesX8(x));
    Shift8IsTimesX8(TimesX8(TimesX8(x)));
  }

  /** The pairs that fit into 16 bits in a row together with what they make of the register one byte
      later. */
  predicate IsElusivePair(x: bv16) {
    x == 0x0013 || x == 0x0026 || x == 0x0089 || x == 0x0235 || x == 0x08c5 || x == 0x118a || x == 0x194f
  }

  lemma OnlySevenElusive(x: bv16, m: bv16)
    requires x != 0 && m & (m + 1) == 0 && x <= m && Shift24(x) & m == 0
    ensures IsElusivePair(x)
  {}

  /** Four bytes, two in front of the checksum and the two of the checksum. */
  predicate SlipsThrough(d: seq<bv8>) {
    || d == [0x00, 0xc8, 0x6a, 0x04] || d == [0x00, 0x64, 0x35, 0x02] || d == [0x00, 0x91, 0x85, 0x00]
    || d == [0x40, 0xac, 0x29, 0x00] || d == [0x10, 0xa3, 0x02, 0x00] || d == [0x88, 0x51, 0x01, 0x00]
    || d == [0x98, 0xf2, 0x03, 0x00]
  }

  lemma ElusivePairs(d: seq<bv8>)
    requires |d| == 4
    ensures SlipsThrough(d) <==> IsElusivePair(Pair(d[0], d[1])) && Pair(d[2], d[3]) == Shift24(Pair(d[0], d[1]))
  {}

  // ----- changes

  /** Where two messages differ, byte by byte. */
  function Change(a: seq<bv8>, b: seq<bv8>): (d: seq<bv8>)
    requires |a| == |b|
    ensures |d| == |a|
  {
    seq(|a|, i requires 0 <= i < |a| => Plus(a[i], b[i]))
  }

  lemma BitOfPlus(a: bv8, b: bv8, m: bv8)
    requires m & (m - 1) == 0
    ensures (Plus(a, b) & m != 0) == ((a & m != 0) != (b & m != 0))
  {}

  lemma BitsOfPlus(a: bv8, b: bv8, k: nat)
    requires k < 8
    ensures BitsUpward(Plus(a, b))[k] == (BitsUpward(a)[k] != BitsUpward(b)[k])
  {
    hide Plus;
    BitOfPlus(a, b, [1, 2, 4, 8, 0x10, 0x20, 0x40, 0x80][k]);
  }

  lemma PlusZero(a: bv8, b: bv8)
    ensures Plus(a, b) == 0 <==> a == b
  {}

  /** The bits in which two messages differ are the bits of their change. */
  lemma {:induction false} BitsOfChange(a: seq<bv8>, b: seq<bv8>, i: nat)
    requires |a| == |b| && i < 8 * |a|
    ensures MessageUpward(Change(a, b))[i] == (MessageUpward(a)[i] != MessageUpward(b)[i])
  {
    hide BitsUpward, Plus;
    assert Change(a, b)[1..] == Change(a[1..], b[1..]);
    if i < 8 {
      BitsOfPlus(a[0], b[0], i);
    } else {
      BitsOfChange(a[1..], b[1..], i - 8);
    }
  }

  lemma BitsOfFour(d: seq<bv8>, i: nat)
    requires |d| == 4 && i < 16
    ensures MessageUpward(d)[i] == Bit(Pair(d[0], d[1]), i)
    ensures MessageUpward(d)[16 + i] == Bit(Pair(d[2], d[3]), i)
  {
    hide BitsUpward, Pair, Bit;
    BitOfPair(d[0], d[1], i);
    BitOfPair(d[2], d[3], i);
    FourBytes(d);
  }

  lemma FourBytes(d: seq<bv8>)
    requires |d| == 4
    ensures MessageUpward(d) == BitsUpward(d[0]) + BitsUpward(d[1]) + (BitsUpward(d[2]) + BitsUpward(d[3]))
  {
    hide BitsUpward;
    assert d[1..][1..] == d[2..] && d[2..][1..] == d[3..] && d[3..][1..] == [];
    assert MessageUpward(d[3..]) == BitsUpward(d[3]);
    assert MessageUpward(d[2..]) == BitsUpward(d[2]) + BitsUpward(d[3]);
    assert MessageUpward(d[1..]) == BitsUpward(d[1]) + (BitsUpward(d[2]) + BitsUpward(d[3]));
  }

  /** A change within 16 bits that the checksum follows, with some of it in front of the checksum, is one
      of the seven. */
  lemma CrossingBurst(d: seq<bv8>, s: nat)
    requires |d| == 4 && s <= 16 && Pair(d[0], d[1]) != 0
    requires forall i :: 0 <= i < s ==> !MessageUpward(d)[i]
    requires forall i :: s + 16 <= i < 32 ==> !MessageUpward(d)[i]
    requires Pair(d[2], d[3]) == TimesX24(Pair(d[0], d[1]))
    ensures SlipsThrough(d)
  {
    hide TimesX24, Shift24, Pair, Bit, IsElusivePair, From, MessageUpward, SlipsThrough;
    var x, y := Pair(d[0], d[1]), Pair(d[2], d[3]);
    forall i | 0 <= i < s ensures !Bit(x, i) {
      BitsOfFour(d, i);
    }
    forall i | s <= i < 16 ensures !Bit(y, i) {
      BitsOfFour(d, i);
    }
    LeadingZeros(x, s);
    TrailingZeros(y, s);
    FromIsLow(s);
    Shift24IsTimesX24(x);
    OnlySevenElusive(x, From(s));
    ElusivePairs(d);
  }

  lemma PairNotZero(a: bv8, b: bv8)
    ensures Pair(a, b) == 0 <==> a == 0 && b == 0
  {}

  lemma FirstAndLastBits()
    ensures BitsUpward(0x88)[3] && BitsUpward(0x98)[3] && BitsUpward(0x10)[4] && BitsUpward(0x40)[6]
    ensures BitsUpward(0x91)[0] && BitsUpward(0x64)[2] && BitsUpward(0xc8)[3]
    ensures BitsUpward(0x01)[0] && BitsUpward(0x03)[1] && BitsUpward(0x02)[1] && BitsUpward(0x29)[5]
    ensures BitsUpward(0x85)[7] && BitsUpward(0x04)[2]
  {}

  /** The seven extend over 14 bits at least. */
  lemma SpanOfSeven(d: seq<bv8>) returns (f: nat, g: nat)
    requires SlipsThrough(d)
    ensures |d| == 4 && f + 13 <= g < 32 && MessageUpward(d)[f] && MessageUpward(d)[g]
  {
    hide MessageUpward, BitsUpward;
    FourBytes(d);
    FirstAndLastBits();
    if d[0] == 0x88 {
      f, g := 3, 16;
    } else if d[0] == 0x98 {
      f, g := 3, 17;
    } else if d[0] == 0x10 {
      f, g := 4, 17;
    } else if d[0] == 0x40 {
      f, g := 6, 21;
    } else if d[1] == 0x91 {
      f, g := 8, 23;
    } else if d[1] == 0x64 {
      f, g := 10, 25;
    } else {
      f, g := 11, 26;
    }
  }

  lemma PairInjective(a: bv8, b: bv8, c: bv8, d: bv8)
    ensures Pair(a, b) == Pair(c, d) <==> a == c && b == d
  {
    hide Pair, Plus;
    PairPlus(a, b, c, d);
    XorZero(Pair(a, b));
    PairNotZero(Plus(a, c), Plus(b, d));
    PlusZero(a, c);
    PlusZero(b, d);
  }

  /** Each of the seven changes the byte in front of the checksum, and the first byte of the checksum. */
  lemma MiddleOfSeven(v: seq<bv8>, w: seq<bv8>, k: nat)
    requires |v| == |w| == k + 4 && (v[k + 1] == w[k + 1] || v[k + 2] == w[k + 2])
    ensures !SlipsThrough(Change(v, w)[k..])
  {
    hide Plus;
    PlusZero(v[k + 1], w[k + 1]);
    PlusZero(v[k + 2], w[k + 2]);
    var d := Change(v, w)[k..];
    assert d[1] == 0 || d[2] == 0;
  }

  // ----- where a burst lies

  /** All differing bits of `v` and `w` are among the `len` bits from bit `at` on. */
  ghost predicate DifferWithin(v: seq<bv8>, w: seq<bv8>, at: nat, len: nat) {
    && |v| == |w| && v != w && at + len <= 8 * |v|
    && MessageUpward(v)[..at] == MessageUpward(w)[..at]
    && MessageUpward(v)[at + len..] == MessageUpward(w)[at + len..]
  }

  lemma BitsInFront(v: seq<bv8>, k: nat)
    requires k <= |v|
    ensures MessageUpward(v) == MessageUpward(v[..k]) + MessageUpward(v[k..])
  {
    assert v == v[..k] + v[k..];
    MessageUpwardConcat(v[..k], v[k..]);
  }

  /** A burst within the first `k` bytes leaves the others alone. */
  lemma BurstInFront(v: seq<bv8>, w: seq<bv8>, k: nat, at: nat, len: nat)
    requires DifferWithin(v, w, at, len) && k <= |v| && at + len <= 8 * k
    ensures v[k..] == w[k..] && DifferWithin(v[..k], w[..k], at, len)
  {
    hide MessageUpward;
    BitsInFront(v, k);
    BitsInFront(w, k);
    var m, n, x := MessageUpward(v), MessageUpward(w), 8 * k - at - len;
    assert MessageUpward(v[k..]) == m[at + len..][x..] && MessageUpward(w[k..]) == n[at + len..][x..];
    UpwardInjective(v[k..], w[k..]);
    assert v == v[..k] + v[k..] && w == w[..k] + w[k..];
    var p, q := MessageUpward(v[..k]), MessageUpward(w[..k]);
    assert p[..at] == m[..at] && q[..at] == n[..at];
    assert p[at + len..] == m[at + len..][..x] && q[at + len..] == n[at + len..][..x];
  }

  /** A burst behind the first `k` bytes leaves them alone. */
  lemma BurstBehind(v: seq<bv8>, w: seq<bv8>, k: nat, at: nat, len: nat)
    requires DifferWithin(v, w, at, len) && k <= |v| && 8 * k <= at
    ensures v[..k] == w[..k] && DifferWithin(v[k..], w[k..], at - 8 * k, len)
  {
    hide MessageUpward;
    BitsInFront(v, k);
    BitsInFront(w, k);
    var m, n, x := MessageUpward(v), MessageUpward(w), at - 8 * k;
    assert MessageUpward(v[..k]) == m[..at][..8 * k] && MessageUpward(w[..k]) == n[..at][..8 * k];
    UpwardInjective(v[..k], w[..k]);
    assert v == v[..k] + v[k..] && w == w[..k] + w[k..];
    var p, q := MessageUpward(v[k..]), MessageUpward(w[k..]);
    assert p[..x] == m[..at][8 * k..] && q[..x] == n[..at][8 * k..];
    assert p[x + len..] == m[at + len..] && q[x + len..] == n[at + len..];
  }

  lemma BurstExtended(v: seq<bv8>, w: seq<bv8>, e: seq<bv8>, at: nat, len: nat)
    requires DifferWithin(v, w, at, len)
    ensures DifferWithin(v + e, w + e, at, len)
  {
    hide MessageUpward;
    MessageUpwardConcat(v, e);
    MessageUpwardConcat(w, e);
    var m, n, end := MessageUpward(v), MessageUpward(w), MessageUpward(e);
    assert (m + end)[..at] == m[..at] && (n + end)[..at] == n[..at];
    assert (m + end)[at + len..] == m[at + len..] + end && (n + end)[at + len..] == n[at + len..] + end;
    assert (v + e)[..|v|] == v && (w + e)[..|w|] == w;
  }

  lemma BurstPreceded(p: seq<bv8>, v: seq<bv8>, w: seq<bv8>, at: nat, len: nat)
    requires DifferWithin(v, w, at, len)
    ensures DifferWithin(p + v, p + w, 8 * |p| + at, len)
  {
    hide MessageUpward;
    MessageUpwardConcat(p, v);
    MessageUpwardConcat(p, w);
    var start, m, n := MessageUpward(p), MessageUpward(v), MessageUpward(w);
    assert (start + m)[..8 * |p| + at] == start + m[..at] && (start + n)[..8 * |p| + at] == start + n[..at];
    assert (start + m)[8 * |p| + at + len..] == m[at + len..] && (start + n)[8 * |p| + at + len..] == n[at + len..];
    assert (p + v)[|p|..] == v && (p + w)[|p|..] == w;
  }

  /** Outside of the burst the change has no bits. */
  lemma ChangeWithin(v: seq<bv8>, w: seq<bv8>, at: nat, len: nat, i: nat)
    requires DifferWithin(v, w, at, len) && i < 8 * |v|
    ensures MessageUpward(Change(v, w))[i] ==> at <= i < at + len
  {
    hide MessageUpward;
    BitsOfChange(v, w, i);
    var m, n := MessageUpward(v), MessageUpward(w);
    if i < at {
      assert m[i] == m[..at][i] == n[..at][i] == n[i];
    } else if i >= at + len {
      assert m[i] == m[at + len..][i - at - len] == n[at + len..][i - at - len] == n[i];
    }
  }

  /** A burst that crosses from the first two of four bytes to the last two. */
  lemma CrossingChange(v: seq<bv8>, w: seq<bv8>, at: nat, len: nat)
    requires |v| == |w| == 4 && DifferWithin(v, w, at, len) && len <= 16 && at < 16
    ensures var d := Change(v, w);
            && (SlipsThrough(d) <==> Pair(d[2], d[3]) == TimesX24(Pair(d[0], d[1])))
            && (SlipsThrough(d) ==> len >= 14)
  {
    hide MessageUpward, Pair, TimesX24, Shift24, Plus;
    var d := Change(v, w);
    if SlipsThrough(d) {
      ElusivePairs(d);
      Shift24IsTimesX24(Pair(d[0], d[1]));
      var f, g := SpanOfSeven(d);
      ChangeWithin(v, w, at, len, f);
      ChangeWithin(v, w, at, len, g);
    }
    if Pair(d[2], d[3]) == TimesX24(Pair(d[0], d[1])) {
      ChangeNotZero(v, w);
      forall i | 0 <= i < 32 ensures MessageUpward(d)[i] ==> at <= i < at + 16 {
        ChangeWithin(v, w, at, len, i);
      }
      CrossingBurst(d, at);
    }
  }

  lemma ChangeNotZero(v: seq<bv8>, w: seq<bv8>)
    requires |v| == |w| == 4 && v != w
    requires var d := Change(v, w); Pair(d[2], d[3]) == TimesX24(Pair(d[0], d[1]))
    ensures var d := Change(v, w); Pair(d[0], d[1]) != 0
  {
    hide Pair, TimesX24, Plus;
    var d := Change(v, w);
    ZeroTimesX24();
    PairNotZero(d[0], d[1]);
    PairNotZero(d[2], d[3]);
    forall i | 0 <= i < 4 ensures d[i] == 0 <==> v[i] == w[i] {
      PlusZero(v[i], w[i]);
    }
  }

  lemma ZeroTimesX24()
    ensures TimesX24(0) == 0
  {
    Shift24IsTimesX24(0);
    hide TimesX24;
  }
}
