/** The field GF(2^8) that the erasure code computes in: bytes under exclusive or and
    multiplication modulo x^8 + x^4 + x^3 + x^2 + 1.  Bit i of a byte is the coefficient of x^i.

    The field operations are hidden (`hide`) in every proof that only needs the laws below, so
    that the solver never reasons about bits outside of the small lemmas of this module. */
module Field {

  /** One byte, the source's `gf`. */
  type gf = bv8

  // ----- the operations

  function Add(a: gf, b: gf): gf { a ^ b }

  function Double(a: gf): gf { a << 1 }

  /** What the x^8 of `Double(a)` folds back to: x^4 + x^3 + x^2 + 1. */
  function Carry(a: gf): gf { if a & 0x80 != 0 then 0x1d else 0 }

  /** Multiplication by x. */
  function Shift(a: gf): gf { Add(Double(a), Carry(a)) }

  function Half(b: gf): gf { b >> 1 }

  /** `a` if the lowest bit of `b` is set, and 0 otherwise. */
  function Gate(b: gf, a: gf): gf { if b & 1 != 0 then a else 0 }

  /** The product of `a` and the lowest `n` bits of `b`. */
  function Part(a: gf, b: gf, n: nat): gf
    decreases n
  {
    if n == 0 then 0 else Add(Gate(b, a), Part(Shift(a), Half(b), n - 1))
  }

  function Mul(a: gf, b: gf): gf { Part(a, b, 8) }

  /** x^i */
  function Exp(i: nat): gf {
    if i == 0 then 1 else Shift(Exp(i - 1))
  }

  // ----- addition

  lemma AddZero(a: gf)
    ensures Add(a, 0) == a && Add(0, a) == a
  {}

  lemma AddSelf(a: gf)
    ensures Add(a, a) == 0
  {}

  lemma AddComm(a: gf, b: gf)
    ensures Add(a, b) == Add(b, a)
  {}

  lemma AddAssoc(a: gf, b: gf, c: gf)
    ensures Add(Add(a, b), c) == Add(a, Add(b, c))
  {}

  lemma AddSwap(a: gf, b: gf, c: gf, d: gf)
    ensures Add(Add(a, b), Add(c, d)) == Add(Add(a, c), Add(b, d))
  {
    hide Add;
    AddAssoc(a, b, Add(c, d));
    AddAssoc(b, c, d);
    AddComm(b, c);
    AddAssoc(c, b, d);
    AddAssoc(a, c, Add(b, d));
  }

  lemma AddZeroIsEqual(a: gf, b: gf)
    ensures Add(a, b) == 0 <==> a == b
  {
    AddMove(a, b, 0);
    AddZero(b);
  }

  lemma AddMove(a: gf, b: gf, c: gf)
    ensures Add(a, b) == c <==> a == Add(c, b)
  {
    hide Add;
    AddAssoc(a, b, b);
    AddAssoc(c, b, b);
    AddSelf(b);
    AddZero(a);
    AddZero(c);
  }

  // ----- the shift and gate of the multiplication

  lemma DoubleAdd(a: gf, b: gf)
    ensures Double(Add(a, b)) == Add(Double(a), Double(b))
  {}

  lemma CarryAdd(a: gf, b: gf)
    ensures Carry(Add(a, b)) == Add(Carry(a), Carry(b))
  {}

  lemma ShiftAdd(a: gf, b: gf)
    ensures Shift(Add(a, b)) == Add(Shift(a), Shift(b))
  {
    hide Add, Double, Carry;
    DoubleAdd(a, b);
    CarryAdd(a, b);
    AddSwap(Double(a), Double(b), Carry(a), Carry(b));
  }

  lemma HalfAdd(a: gf, b: gf)
    ensures Half(Add(a, b)) == Add(Half(a), Half(b))
  {}

  lemma GateAdd(b: gf, a: gf, c: gf)
    ensures Gate(b, Add(a, c)) == Add(Gate(b, a), Gate(b, c))
  {}

  lemma GateAddControl(b: gf, c: gf, a: gf)
    ensures Gate(Add(b, c), a) == Add(Gate(b, a), Gate(c, a))
  {}

  lemma GateShift(b: gf, a: gf)
    ensures Gate(b, Shift(a)) == Shift(Gate(b, a))
  {}

  lemma GateHalf(b: gf)
    ensures b == Add(Gate(b, 1), Shift(Half(b)))
  {}

  lemma ShiftZero()
    ensures Shift(0) == 0 && Half(0) == 0 && Double(0) == 0
    ensures forall a :: Gate(0, a) == 0
  {}

  // ----- multiplication is bilinear and commutes with the shift

  lemma {:induction false} PartAddLeft(a: gf, b: gf, c: gf, n: nat)
    ensures Part(Add(a, b), c, n) == Add(Part(a, c, n), Part(b, c, n))
    decreases n
  {
    hide Add, Shift, Half, Gate;
    if n == 0 {
      AddZero(0);
    } else {
      ShiftAdd(a, b);
      GateAdd(c, a, b);
      PartAddLeft(Shift(a), Shift(b), Half(c), n - 1);
      AddSwap(Gate(c, a), Gate(c, b), Part(Shift(a), Half(c), n - 1), Part(Shift(b), Half(c), n - 1));
    }
  }

  lemma {:induction false} PartAddRight(a: gf, b: gf, c: gf, n: nat)
    ensures Part(a, Add(b, c), n) == Add(Part(a, b, n), Part(a, c, n))
    decreases n
  {
    hide Add, Shift, Half, Gate;
    if n == 0 {
      AddZero(0);
    } else {
      HalfAdd(b, c);
      GateAddControl(b, c, a);
      PartAddRight(Shift(a), Half(b), Half(c), n - 1);
      AddSwap(Gate(b, a), Gate(c, a), Part(Shift(a), Half(b), n - 1), Part(Shift(a), Half(c), n - 1));
    }
  }

  lemma {:induction false} PartShift(a: gf, b: gf, n: nat)
    ensures Part(Shift(a), b, n) == Shift(Part(a, b, n))
    decreases n
  {
    hide Add, Shift, Half, Gate;
    if n == 0 {
      ShiftZero();
    } else {
      GateShift(b, a);
      PartShift(Shift(a), Half(b), n - 1);
      ShiftAdd(Gate(b, a), Part(Shift(a), Half(b), n - 1));
    }
  }

  lemma {:induction false} PartZero(a: gf, n: nat)
    ensures Part(a, 0, n) == 0
    decreases n
  {
    hide Add, Shift, Half, Gate;
    if n > 0 {
      ShiftZero();
      PartZero(Shift(a), n - 1);
      AddZero(0);
    }
  }

  /** All bits of `b` from bit `n` on are zero. */
  predicate Below(b: gf, n: nat)
    decreases n
  {
    if n == 0 then b == 0 else Below(Half(b), n - 1)
  }

  lemma {:induction false} PartBelow(a: gf, b: gf, n: nat)
    requires Below(b, n)
    ensures Part(a, b, n + 1) == Part(a, b, n)
    decreases n
  {
    hide Add, Shift, Half, Gate;
    if n == 0 {
      PartZero(a, 1);
    } else {
      PartBelow(Shift(a), Half(b), n - 1);
    }
  }

  lemma BelowSeven(b: gf)
    ensures b & 0x80 == 0 <==> Below(b, 7)
    ensures Below(b, 8)
  {
    assert Below(b, 7) <==> Below(Half(Half(b)), 5);
    assert Below(Half(Half(b)), 5) <==> Below(Half(Half(Half(Half(b)))), 3);
    assert Below(Half(Half(Half(Half(b)))), 3) <==> Half(Half(Half(Half(Half(Half(Half(b))))))) == 0;
    assert Below(b, 8) <==> Below(Half(Half(b)), 6);
    assert Below(Half(Half(b)), 6) <==> Below(Half(Half(Half(Half(b)))), 4);
    assert Below(Half(Half(Half(Half(b)))), 4) <==> Below(Half(Half(Half(Half(Half(Half(b)))))), 2);
  }

  // ----- bytes and array indices

  /** A byte as an array index. */
  function Index(a: gf): (n: nat)
    ensures n < 256
  {
    a as int
  }

  /** Bit by bit. */
  lemma DoubleIndex(b: gf, odd: bool)
    requires Index(b) < 128
    ensures Index(Add(Double(b), if odd then 1 else 0)) == 2 * Index(b) + if odd then 1 else 0
  {}

  /** The byte with a given index. */
  function Byte(n: nat): (a: gf)
    requires n < 256
    ensures Index(a) == n
  {
    hide Add, Double, Index;
    if n == 0 then
      SmallIndices();
      0
    else
      DoubleIndex(Byte(n / 2), n % 2 == 1);
      Add(Double(Byte(n / 2)), if n % 2 == 1 then 1 else 0)
  }

  lemma SmallIndices()
    ensures Index(0) == 0 && Index(1) == 1
  {}

  lemma ByteIndexInjective(a: gf, b: gf)
    requires Index(a) == Index(b)
    ensures a == b
  {}

  lemma ByteIndex(a: gf)
    ensures Byte(Index(a)) == a
  {
    hide Index, Byte;
    ByteIndexInjective(Byte(Index(a)), a);
  }

  lemma SmallBytes()
    ensures Byte(0) == 0 && Index(0) == 0 && Byte(1) == 1 && Index(1) == 1
  {
    hide Index, Byte;
    SmallIndices();
    ByteIndex(0);
    ByteIndex(1);
  }

  /** Setting the highest bit of a smaller index. */
  lemma HighBit(n: nat)
    requires n < 128
    ensures Byte(128 + n) == Add(Byte(128), Byte(n))
  {
    hide Add, Index, Byte;
    var top, b := Byte(128), Byte(n);
    HighBitIndex(top, b);
    ByteIndexInjective(Byte(128 + n), Add(top, b));
  }

  lemma HighBitIndex(top: gf, b: gf)
    requires Index(top) == 128 && Index(b) < 128
    ensures Index(Add(top, b)) == 128 + Index(b)
  {}

  lemma MulAddLeft(a: gf, b: gf, c: gf)
    ensures Mul(Add(a, b), c) == Add(Mul(a, c), Mul(b, c))
  {
    hide Add, Part;
    PartAddLeft(a, b, c, 8);
  }

  lemma MulAddRight(a: gf, b: gf, c: gf)
    ensures Mul(a, Add(b, c)) == Add(Mul(a, b), Mul(a, c))
  {
    hide Add, Part;
    PartAddRight(a, b, c, 8);
  }

  lemma MulZero(a: gf)
    ensures Mul(a, 0) == 0 && Mul(0, a) == 0
  {
    hide Add, Part;
    PartZero(a, 8);
    MulAddLeft(0, 0, a);
    AddSelf(0);
    AddSelf(Mul(0, a));
  }

  lemma ShiftLow(b: gf)
    requires b & 0x80 == 0
    ensures Half(Shift(b)) == b && (forall a :: Gate(Shift(b), a) == 0)
  {}

  lemma MulShiftLow(a: gf, b: gf)
    requires b & 0x80 == 0
    ensures Mul(a, Shift(b)) == Shift(Mul(a, b))
  {
    hide Add, Shift, Half, Gate;
    ShiftLow(b);
    BelowSeven(b);
    PartBelow(Shift(a), b, 7);
    PartShift(a, b, 8);
    AddZero(Part(Shift(a), b, 7));
  }

  lemma PartTwo(a: gf, b: gf, n: nat)
    ensures Part(a, b, n + 2) ==
            Add(Gate(b, a), Add(Gate(Half(b), Shift(a)), Part(Shift(Shift(a)), Half(Half(b)), n)))
  {
    hide Add, Shift, Half, Gate;
  }

  function ShiftFour(a: gf): gf { Shift(Shift(Shift(Shift(a)))) }

  /** The product of `a` and x^4 + x^3 + x^2 + 1. */
  function TimesTail(a: gf): gf {
    Add(a, Add(Shift(Shift(a)), Add(Shift(Shift(Shift(a))), ShiftFour(a))))
  }

  function LowNibble(a: gf): gf { a & 0x0f }
  function HighNibble(a: gf): gf { a & 0xf0 }

  lemma Nibbles(a: gf)
    ensures a == Add(LowNibble(a), HighNibble(a))
  {}

  lemma ShiftFourAdd(a: gf, b: gf)
    ensures ShiftFour(Add(a, b)) == Add(ShiftFour(a), ShiftFour(b))
  {
    hide Add, Shift;
    ShiftAdd(a, b);
    ShiftAdd(Shift(a), Shift(b));
    ShiftAdd(Shift(Shift(a)), Shift(Shift(b)));
    ShiftAdd(Shift(Shift(Shift(a))), Shift(Shift(Shift(b))));
  }

  lemma TimesTailAdd(a: gf, b: gf)
    ensures TimesTail(Add(a, b)) == Add(TimesTail(a), TimesTail(b))
  {
    hide Add, Shift, ShiftFour;
    ShiftAdd(a, b);
    ShiftAdd(Shift(a), Shift(b));
    ShiftAdd(Shift(Shift(a)), Shift(Shift(b)));
    ShiftFourAdd(a, b);
    var a2, b2 := Shift(Shift(a)), Shift(Shift(b));
    AddSwap(Shift(a2), Shift(b2), ShiftFour(a), ShiftFour(b));
    AddSwap(a2, b2, Add(Shift(a2), ShiftFour(a)), Add(Shift(b2), ShiftFour(b)));
    AddSwap(a, b, Add(a2, Add(Shift(a2), ShiftFour(a))), Add(b2, Add(Shift(b2), ShiftFour(b))));
  }

  lemma LowNibbleEight(a: gf)
    ensures ShiftFour(ShiftFour(LowNibble(a))) == TimesTail(LowNibble(a))
  {}

  lemma HighNibbleEight(a: gf)
    ensures ShiftFour(ShiftFour(HighNibble(a))) == TimesTail(HighNibble(a))
  {}

  lemma ShiftEight(a: gf)
    ensures Shift(Shift(Shift(Shift(Shift(Shift(Shift(Shift(a)))))))) ==
            Add(a, Add(Shift(Shift(a)), Add(Shift(Shift(Shift(a))), Shift(Shift(Shift(Shift(a)))))))
  {
    hide Add, Shift, LowNibble, HighNibble;
    var l, h := LowNibble(a), HighNibble(a);
    Nibbles(a);
    LowNibbleEight(a);
    HighNibbleEight(a);
    EightAdd(l, h);
    TimesTailAdd(l, h);
    assert ShiftFour(ShiftFour(a)) == TimesTail(a);
  }

  lemma EightAdd(a: gf, b: gf)
    ensures ShiftFour(ShiftFour(Add(a, b))) == Add(ShiftFour(ShiftFour(a)), ShiftFour(ShiftFour(b)))
  {
    hide Add, ShiftFour;
    ShiftFourAdd(a, b);
    ShiftFourAdd(ShiftFour(a), ShiftFour(b));
  }

  lemma PartConstants(a: gf, s: gf)
    ensures Gate(0x1d, a) == a && Gate(0x0e, s) == 0 && Half(0x1d) == 0x0e && Half(0x0e) == 0x07
    ensures Gate(0x07, a) == a && Gate(0x03, s) == s && Half(0x07) == 0x03 && Half(0x03) == 0x01
    ensures Gate(0x01, a) == a && Gate(0, s) == 0 && Half(0x01) == 0 && Half(0) == 0
    ensures Gate(0x80, a) == 0 && Gate(0x40, s) == 0 && Half(0x80) == 0x40 && Half(0x40) == 0x20
    ensures Gate(0x20, a) == 0 && Gate(0x10, s) == 0 && Half(0x20) == 0x10 && Half(0x10) == 0x08
    ensures Gate(0x08, a) == 0 && Gate(0x04, s) == 0 && Half(0x08) == 0x04 && Half(0x04) == 0x02
    ensures Gate(0x02, a) == 0 && Gate(0x01, s) == s && Half(0x02) == 0x01
  {}

  lemma MulByOne(a: gf)
    ensures Mul(a, 1) == a
  {
    hide Add, Shift, Half, Gate;
    PartConstants(a, a);
    PartZero(Shift(a), 7);
    AddZero(a);
  }

  /** x^7 * x == x^4 + x^3 + x^2 + 1, as factors. */
  lemma MulShiftTop(a: gf)
    ensures Mul(a, 0x1d) == Shift(Mul(a, 0x80))
  {
    hide Add, Shift, Half, Gate;
    var a2 := Shift(Shift(a));
    var a4 := Shift(Shift(a2));
    var a6 := Shift(Shift(a4));
    PartTwo(a, 0x1d, 6);
    PartTwo(a2, 0x07, 4);
    PartTwo(a4, 0x01, 2);
    PartTwo(a, 0x80, 6);
    PartTwo(a2, 0x20, 4);
    PartTwo(a4, 0x08, 2);
    PartTwo(a6, 0x02, 0);
    PartConstants(a, Shift(a));
    PartConstants(a2, Shift(a2));
    PartConstants(a4, Shift(a4));
    PartConstants(a6, Shift(a6));
    PartZero(a6, 2);
    AddZero(0);
    AddZero(a4);
    AddZero(Shift(a6));
    AddZero(Part(a2, 0x07, 6));
    AddZero(Part(a2, 0x20, 6));
    AddZero(Part(a4, 0x08, 4));
    AddZero(Part(a6, 0x02, 2));
    ShiftEight(a);
  }

  lemma TopSplit(b: gf)
    requires b & 0x80 != 0
    ensures b == Add(0x80, b & 0x7f) && b & 0x7f & 0x80 == 0
    ensures Shift(0x80) == 0x1d
  {}

  lemma MulShift(a: gf, b: gf)
    ensures Mul(a, Shift(b)) == Shift(Mul(a, b))
    ensures Mul(Shift(a), b) == Shift(Mul(a, b))
  {
    hide Add, Shift, Part;
    PartShift(a, b, 8);
    if b & 0x80 == 0 {
      MulShiftLow(a, b);
    } else {
      var c := b & 0x7f;
      TopSplit(b);
      ShiftAdd(0x80, c);
      MulAddRight(a, 0x1d, Shift(c));
      MulAddRight(a, 0x80, c);
      MulShiftTop(a);
      MulShiftLow(a, c);
      ShiftAdd(Mul(a, 0x80), Mul(a, c));
    }
  }

  // ----- multiplication is commutative and associative

  lemma MulGate(a: gf, b: gf)
    ensures Mul(a, Gate(b, 1)) == Gate(b, a) == Mul(Gate(b, 1), a)
  {
    hide Part;
    MulByOne(a);
    MulByOneLeft(a);
    MulZero(a);
  }

  lemma MulByOneLeft(a: gf)
    ensures Mul(1, a) == a
  {
    hide Add, Shift, Half, Gate, Part;
    BelowSeven(a);
    MulByOneLeftBelow(a, 8);
  }

  lemma {:induction false} MulByOneLeftBelow(a: gf, n: nat)
    requires Below(a, n)
    ensures Mul(1, a) == a
    decreases n
  {
    hide Add, Shift, Half, Gate, Part;
    if n == 0 {
      MulZero(1);
    } else {
      var h := Half(a);
      MulByOneLeftBelow(h, n - 1);
      GateHalf(a);
      MulShift(1, h);
      MulAddRight(1, Gate(a, 1), Shift(h));
      MulByOne(1);
      MulZero(1);
      GateOne(a);
    }
  }

  lemma GateOne(b: gf)
    ensures Gate(b, 1) == 0 || Gate(b, 1) == 1
  {}

  lemma {:induction false} MulCommBelow(a: gf, b: gf, n: nat)
    requires Below(b, n)
    ensures Mul(a, b) == Mul(b, a)
    decreases n
  {
    hide Add, Shift, Half, Gate, Part;
    if n == 0 {
      MulZero(a);
    } else {
      var h := Half(b);
      MulCommBelow(a, h, n - 1);
      GateHalf(b);
      MulGate(a, b);
      MulAddRight(a, Gate(b, 1), Shift(h));
      MulAddLeft(Gate(b, 1), Shift(h), a);
      MulShift(a, h);
      MulShift(h, a);
    }
  }

  lemma MulComm(a: gf, b: gf)
    ensures Mul(a, b) == Mul(b, a)
  {
    hide Add, Shift, Half, Gate, Part, Below;
    BelowSeven(b);
    MulCommBelow(a, b, 8);
  }

  lemma {:induction false} MulAssocBelow(a: gf, b: gf, c: gf, n: nat)
    requires Below(c, n)
    ensures Mul(Mul(a, b), c) == Mul(a, Mul(b, c))
    decreases n
  {
    hide Add, Shift, Half, Gate, Part, Mul;
    if n == 0 {
      MulZero(Mul(a, b));
      MulZero(b);
      MulZero(a);
    } else {
      var h := Half(c);
      MulAssocBelow(a, b, h, n - 1);
      GateHalf(c);
      MulGate(Mul(a, b), c);
      MulGate(b, c);
      MulGateRight(a, b, c);
      MulAddRight(Mul(a, b), Gate(c, 1), Shift(h));
      MulAddRight(b, Gate(c, 1), Shift(h));
      MulAddRight(a, Gate(c, b), Shift(Mul(b, h)));
      MulShift(Mul(a, b), h);
      MulShift(b, h);
      MulShift(a, Mul(b, h));
    }
  }

  lemma MulGateRight(a: gf, b: gf, c: gf)
    ensures Mul(a, Gate(c, b)) == Gate(c, Mul(a, b))
  {
    hide Part;
    MulZero(a);
  }

  lemma MulAssoc(a: gf, b: gf, c: gf)
    ensures Mul(Mul(a, b), c) == Mul(a, Mul(b, c))
  {
    hide Add, Shift, Half, Gate, Part, Below;
    BelowSeven(c);
    MulAssocBelow(a, b, c, 8);
  }

  // ----- the powers of x

  lemma {:induction false} ExpAdd(i: nat, j: nat)
    ensures Mul(Exp(i), Exp(j)) == Exp(i + j)
  {
    hide Shift, Mul;
    if j == 0 {
      MulByOne(Exp(i));
    } else {
      ExpAdd(i, j - 1);
      MulShift(Exp(i), Exp(j - 1));
    }
  }

  function ShiftSeventeen(a: gf): gf { Shift(ShiftFour(ShiftFour(ShiftFour(ShiftFour(a))))) }

  /** None of `a`, `a` * x, ..., `a` * x^3 is 1. */
  predicate FourNotOne(a: gf) {
    a != 1 && Shift(a) != 1 && Shift(Shift(a)) != 1 && Shift(Shift(Shift(a))) != 1
  }

  predicate SeventeenNotOne(a: gf) {
    && FourNotOne(a)
    && FourNotOne(ShiftFour(a))
    && FourNotOne(ShiftFour(ShiftFour(a)))
    && FourNotOne(ShiftFour(ShiftFour(ShiftFour(a))))
    && ShiftFour(ShiftFour(ShiftFour(ShiftFour(a)))) != 1
  }

  lemma ExpFour(i: nat)
    ensures Exp(i + 4) == ShiftFour(Exp(i))
    ensures FourNotOne(Exp(i)) ==> forall j :: i <= j < i + 4 ==> Exp(j) != 1
  {
    hide Shift;
    assert Exp(i + 2) == Shift(Exp(i + 1));
    assert Exp(i + 3) == Shift(Exp(i + 2));
  }

  lemma ExpSeventeen(i: nat, v: gf)
    requires Exp(i) == v
    ensures Exp(i + 17) == ShiftSeventeen(v)
    ensures SeventeenNotOne(v) ==> forall j :: i <= j < i + 17 ==> Exp(j) != 1
  {
    hide ShiftFour, FourNotOne, Shift;
    ExpFour(i);
    ExpFour(i + 4);
    ExpFour(i + 8);
    ExpFour(i + 12);
  }

  lemma ExpRow(i: nat, v: gf, w: gf)
    requires Exp(i) == v && ShiftSeventeen(v) == w && SeventeenNotOne(v)
    ensures Exp(i + 17) == w
    ensures forall j :: i <= j < i + 17 ==> Exp(j) != 1
  {
    hide ShiftSeventeen, SeventeenNotOne, Shift;
    ExpSeventeen(i, v);
  }

  lemma ExpStart()
    ensures Exp(17) == 0x98
    ensures forall j :: 1 <= j < 17 ==> Exp(j) != 1
  {
    assert Exp(1) == 2;
    ExpFour(1);
    ExpFour(5);
    ExpFour(9);
    ExpFour(13);
  }

  lemma ExpRowsLow()
    ensures Exp(85) == 0xd6
    ensures forall j :: 1 <= j < 85 ==> Exp(j) != 1
  {
    hide Exp;
    ExpStart();
    ExpRow(17, 0x98, 0x4e);
    ExpRow(34, 0x4e, 0x0a);
    ExpRow(51, 0x0a, 0x99);
    ExpRow(68, 0x99, 0xd6);
  }

  lemma ExpRowsMiddle()
    requires Exp(85) == 0xd6
    ensures Exp(170) == 0xd7
    ensures forall j :: 85 <= j < 170 ==> Exp(j) != 1
  {
    hide Exp;
    ExpRow(85, 0xd6, 0x44);
    ExpRow(102, 0x44, 0x93);
    ExpRow(119, 0x93, 0x4f);
    ExpRow(136, 0x4f, 0x92);
    ExpRow(153, 0x92, 0xd7);
  }

  lemma ExpRowsHigh()
    requires Exp(170) == 0xd7
    ensures Exp(255) == 0x01
    ensures forall j :: 170 <= j < 255 ==> Exp(j) != 1
  {
    hide Exp;
    ExpRow(170, 0xd7, 0xdc);
    ExpRow(187, 0xdc, 0xdd);
    ExpRow(204, 0xdd, 0x45);
    ExpRow(221, 0x45, 0x0b);
    ExpRow(238, 0x0b, 0x01);
  }

  /** x is primitive: its first power equal to 1 is x^255. */
  lemma XIsPrimitive(i: nat)
    ensures Exp(255) == 1
    ensures 0 < i < 255 ==> Exp(i) != 1
  {
    hide Exp;
    ExpRowsLow();
    ExpRowsMiddle();
    ExpRowsHigh();
  }

  /** Every nonzero element is exactly one of x^0, ..., x^254. */
  lemma ExpInjective(i: nat, j: nat)
    requires i < 255 && j < 255 && Exp(i) == Exp(j)
    ensures i == j
  {
    hide Shift, Mul, Exp;
    ExpCancel(if i < j then i else j, if i < j then j - i else i - j);
  }

  lemma ExpCancel(i: nat, d: nat)
    requires i < 255 && Exp(i + d) == Exp(i)
    ensures d == 0 || 255 <= d
  {
    hide Shift, Mul, Exp;
    ExpAdd(i, d);
    ExpAdd(255 - i, i);
    XIsPrimitive(d);
    MulAssoc(Exp(255 - i), Exp(i), Exp(d));
    MulByOneLeft(Exp(d));
  }

  /** x^0, ..., x^(n-1) */
  function Powers(n: nat): set<gf> {
    if n == 0 then {} else Powers(n - 1) + {Exp(n - 1)}
  }

  /** The bytes 1, ..., n */
  function Bytes(n: nat): set<gf>
    requires n < 256
  {
    if n == 0 then {} else Bytes(n - 1) + {Byte(n)}
  }

  lemma {:induction false} PowersMember(n: nat, a: gf)
    requires a in Powers(n)
    ensures exists i :: 0 <= i < n && Exp(i) == a
  {
    hide Exp;
    if a in Powers(n - 1) {
      PowersMember(n - 1, a);
    }
  }

  lemma {:induction false} PowersSize(n: nat)
    requires n <= 255
    ensures |Powers(n)| == n
  {
    hide Exp;
    if n > 0 {
      PowersSize(n - 1);
      if Exp(n - 1) in Powers(n - 1) {
        PowersMember(n - 1, Exp(n - 1));
        var i :| 0 <= i < n - 1 && Exp(i) == Exp(n - 1);
        ExpInjective(i, n - 1);
      }
    }
  }

  lemma {:induction false} BytesMember(n: nat, m: nat, a: gf)
    requires Index(a) == m && 0 < m <= n < 256
    ensures a in Bytes(n)
  {
    hide Byte, Index;
    ByteIndex(a);
    if m < n {
      BytesMember(n - 1, m, a);
    }
  }

  lemma {:induction false} BytesSize(n: nat)
    requires n < 256
    ensures |Bytes(n)| <= n
  {
    hide Byte, Index;
    if n > 0 {
      BytesSize(n - 1);
    }
  }

  lemma {:induction false} SubsetSize<T>(s: set<T>, t: set<T>)
    requires s <= t
    ensures |s| <= |t|
  {
    if s != {} {
      var a :| a in s;
      SubsetSize(s - {a}, t - {a});
    }
  }

  lemma {:induction false} ExpNonzero(i: nat)
    ensures Exp(i) != 0
  {
    if i > 0 {
      ExpNonzero(i - 1);
    }
  }

  /** The powers of x are all the nonzero elements. */
  lemma ExpSurjective(a: gf)
    requires a != 0
    ensures exists i :: 0 <= i < 255 && Exp(i) == a
  {
    hide Exp, Powers, Bytes, Byte, Index;
    if a in Powers(255) {
      PowersMember(255, a);
    } else {
      forall b | b in Powers(255) + {a} ensures b in Bytes(255) {
        if b != a {
          PowersMember(255, b);
          var i :| 0 <= i < 255 && Exp(i) == b;
          ExpNonzero(i);
        }
        SmallBytes();
        if Index(b) == 0 {
          ByteIndexInjective(b, 0);
        }
        BytesMember(255, Index(b), b);
      }
      PowersSize(255);
      BytesSize(255);
      SubsetSize(Powers(255) + {a}, Bytes(255));
    }
  }

  /** The discrete logarithm of a nonzero element. */
  ghost function Log(a: gf): (i: nat)
    requires a != 0
    ensures i < 255 && Exp(i) == a
  {
    ExpSurjective(a);
    var i :| 0 <= i < 255 && Exp(i) == a;
    i
  }

  // ----- multiplicative inverses

  /** The multiplicative inverse, and 0 for 0. */
  ghost function Inv(a: gf): (b: gf)
    ensures a != 0 ==> Mul(a, b) == 1 && Mul(b, a) == 1 && b != 0
    ensures a == 0 ==> b == 0
  {
    if a == 0 then 0 else
      InvExists(a);
      var b :| Mul(a, b) == 1 && Mul(b, a) == 1;
      MulZero(a);
      b
  }

  lemma InvExists(a: gf)
    requires a != 0
    ensures exists b :: Mul(a, b) == 1 && Mul(b, a) == 1
  {
    hide Shift, Mul, Exp;
    var b := Exp(255 - Log(a));
    ExpAdd(Log(a), 255 - Log(a));
    MulComm(a, b);
    XIsPrimitive(0);
  }

  lemma InvUnique(a: gf, b: gf)
    requires Mul(a, b) == 1
    ensures b == Inv(a)
  {
    hide Mul, Inv;
    MulZero(b);
    MulAssoc(Inv(a), a, b);
    MulByOne(Inv(a));
    MulByOneLeft(b);
  }

  lemma MulNonzero(a: gf, b: gf)
    requires a != 0 && b != 0
    ensures Mul(a, b) != 0
  {
    hide Mul, Inv;
    MulAssoc(Inv(a), a, b);
    MulByOneLeft(b);
    MulZero(Inv(a));
  }
}
