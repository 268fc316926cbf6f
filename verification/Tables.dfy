/** The lookup tables of the code: powers and logarithms of x, inverses, and products. */
module Tables {
  import opened Field

  const GF_BITS := 8
  const GF_SIZE := 255

  /** `x` modulo 255 by folding the high byte onto the low one; the result is a byte, so a negative
      argument is only truncated. */
  method ModNn(x: int) returns (r: nat)
    ensures r < 256
    ensures 0 <= x ==> r == x % GF_SIZE
    ensures x < 0 ==> r == x % 256
  {
    var y := x;
    while y >= GF_SIZE
      invariant 0 <= x ==> 0 <= y && y % GF_SIZE == x % GF_SIZE
      invariant x < 0 ==> y == x
      decreases y
    {
      y := y - GF_SIZE;
      FoldByte(y);
      y := y / 256 + y % 256;
    }
    r := y % 256;
  }

  lemma FoldByte(y: nat)
    ensures (y / 256 + y % 256) % GF_SIZE == (y + GF_SIZE) % GF_SIZE
    ensures y / 256 + y % 256 <= y
  {
    assert y == y / 256 * GF_SIZE + (y / 256 + y % 256);
    ModAdd(y / 256, y / 256 + y % 256);
    ModAdd(1, y);
  }

  lemma {:induction false} ModAdd(q: nat, r: nat)
    ensures (q * GF_SIZE + r) % GF_SIZE == r % GF_SIZE
  {
    if q > 0 {
      ModAdd(q - 1, r);
      assert q * GF_SIZE + r == ((q - 1) * GF_SIZE + r) + GF_SIZE;
    }
  }

  /** Coefficients of the modulus, x^0 first. */
  const PRIMITIVE_POLYNOMIAL := "101110001"

  /** The sum of the terms of the modulus below x^n. */
  ghost function ModulusTerms(n: nat): gf
    requires n <= GF_BITS
  {
    if n == 0 then 0
    else if PRIMITIVE_POLYNOMIAL[n - 1] == '1' then Add(ModulusTerms(n - 1), Exp(n - 1))
    else ModulusTerms(n - 1)
  }

  lemma ModulusIsExp8()
    ensures ModulusTerms(GF_BITS) == Exp(GF_BITS)
  {
    ExpFour(0);
    ExpFour(4);
    assert Exp(1) == 2 && Exp(2) == 4 && Exp(3) == 8 && Exp(4) == 16;
    assert ModulusTerms(2) == 1;
    assert ModulusTerms(4) == 0x0d;
    assert ModulusTerms(6) == 0x1d;
  }

  lemma ExpZero()
    ensures Exp(0) == 1
  {}

  lemma ExpNext(i: nat)
    requires i > 0
    ensures Exp(i) == Shift(Exp(i - 1))
  {}

  lemma ExpEight()
    ensures Exp(GF_BITS) == 0x1d
  {
    ExpFour(0);
    ExpFour(4);
  }

  lemma SmallPowers(i: nat)
    requires i < GF_BITS
    ensures i + 1 < GF_BITS ==> Double(Exp(i)) == Exp(i + 1)
  {
    ExpFour(0);
    assert Exp(1) == 2 && Exp(2) == 4 && Exp(3) == 8 && Exp(4) == 16;
    assert Exp(5) == 32 && Exp(6) == 64;
  }

  /** The table step of the source is multiplication by x. */
  lemma NextPower(a: gf)
    ensures a >= 0x80 ==> 0x1d ^ ((a ^ 0x80) << 1) == Shift(a)
    ensures a < 0x80 ==> a << 1 == Shift(a)
  {}

  lemma {:induction false} ExpPeriod(i: nat)
    ensures Exp(i) == Exp(i % GF_SIZE)
  {
    hide Exp;
    if i >= GF_SIZE {
      ExpPeriod(i - GF_SIZE);
      XIsPrimitive(0);
      ExpAdd(i - GF_SIZE, GF_SIZE);
      MulByOne(Exp(i - GF_SIZE));
    }
  }

  lemma ProductByLogs(a: gf, b: gf)
    requires a != 0 && b != 0
    ensures Mul(a, b) == Exp((Log(a) + Log(b)) % GF_SIZE)
  {
    hide Exp, Mul;
    ExpAdd(Log(a), Log(b));
    ExpPeriod(Log(a) + Log(b));
  }

  lemma InverseByLog(a: gf)
    requires a != 0
    ensures Inv(a) == Exp(GF_SIZE - Log(a))
  {
    hide Exp, Mul;
    ExpAdd(Log(a), GF_SIZE - Log(a));
    XIsPrimitive(0);
    InvUnique(a, Exp(GF_SIZE - Log(a)));
  }

  /** Where the product of `i` and `j` is in the multiplication table. */
  function Cell(i: nat, j: nat): nat { i * 256 + j }

  function Row(m: nat): nat { m / 256 }
  function Column(m: nat): nat { m % 256 }

  lemma CellOf(i: nat, j: nat)
    requires i < 256 && j < 256
    ensures Cell(i, j) == 256 * i + j < 65536 && Row(Cell(i, j)) == i && Column(Cell(i, j)) == j
  {}

  class Galois {
    const gfExp: array<gf>
    const gfLog: array<nat>
    const inverse: array<gf>
    const mulTable: array<gf>
    var initialized: bool

    ghost predicate Shaped() {
      && gfExp.Length == 2 * GF_SIZE
      && gfLog.Length == GF_SIZE + 1
      && inverse.Length == GF_SIZE + 1
      && mulTable.Length == (GF_SIZE + 1) * (GF_SIZE + 1)
      && gfExp != inverse && gfExp != mulTable && inverse != mulTable
      && gfLog as object !in {gfExp as object, inverse, mulTable}
    }

    /** The logarithms and exponents hold what they are named after. */
    ghost predicate PowersReady()
      reads gfExp, gfLog
    {
      && Shaped()
      && (forall i :: 0 <= i < 2 * GF_SIZE ==> gfExp[i] == Exp(i % GF_SIZE))
      && gfLog[0] == GF_SIZE
      && (forall i :: 0 < i < 256 ==> Byte(i) != 0 && gfLog[i] == Log(Byte(i)))
    }

    ghost predicate InverseReady()
      reads inverse
    {
      && Shaped()
      && forall i :: 0 <= i < 256 ==> inverse[i] == Inv(Byte(i))
    }

    ghost predicate MulReady()
      reads mulTable
    {
      && Shaped()
      && forall i, j :: 0 <= i < 256 && 0 <= j < 256 ==>
        0 <= Cell(i, j) < 65536 && mulTable[Cell(i, j)] == Mul(Byte(i), Byte(j))
    }

    /** What the code needs once `FecInit` has run. */
    ghost predicate Ready()
      reads this, inverse, mulTable
    {
      initialized && InverseReady() && MulReady()
    }

    constructor ()
      ensures Shaped() && !initialized
      ensures fresh(gfExp) && fresh(gfLog) && fresh(inverse) && fresh(mulTable)
    {
      gfExp := new gf[2 * GF_SIZE];
      gfLog := new nat[GF_SIZE + 1];
      inverse := new gf[GF_SIZE + 1];
      mulTable := new gf[(GF_SIZE + 1) * (GF_SIZE + 1)];
      initialized := false;
    }

    /** Every power up to `n` is in both tables. */
    ghost predicate Filled(n: nat)
      requires n <= GF_SIZE && Shaped()
      reads gfExp, gfLog
    {
      forall j :: 0 <= j < n ==> gfExp[j] == Exp(j) && gfLog[Index(Exp(j))] == j
    }

    /** Entering x^n into the tables keeps the earlier entries. */
    method Enter(n: nat, v: gf)
      requires Shaped() && n < GF_SIZE && Filled(n) && v == Exp(n)
      modifies gfExp, gfLog
      ensures Filled(n + 1)
      ensures forall i :: 0 <= i < gfExp.Length && i != n ==> gfExp[i] == old(gfExp[i])
    {
      hide Exp, Index, Byte, Add;
      gfExp[n] := v;
      gfLog[Index(v)] := n;
      forall j | 0 <= j < n ensures Index(Exp(j)) != Index(v) {
        if Index(Exp(j)) == Index(v) {
          ByteIndexInjective(Exp(j), v);
          ExpInjective(j, n);
        }
      }
    }

    /** x^0, ..., x^8: the bits of a byte, and the fold of the modulus. */
    method FirstPowers()
      requires Shaped()
      modifies gfExp, gfLog
      ensures Filled(GF_BITS + 1)
    {
      hide Exp, Shift, Byte, Index, Add, Double;
      var mask: gf := 1;
      gfExp[GF_BITS] := 0;
      ExpZero();
      for i := 0 to GF_BITS
        invariant Filled(i)
        invariant i < GF_BITS ==> mask == Exp(i)
        invariant gfExp[GF_BITS] == ModulusTerms(i)
      {
        SmallPowers(i);
        Enter(i, mask);
        if PRIMITIVE_POLYNOMIAL[i] == '1' {
          gfExp[GF_BITS] := Add(gfExp[GF_BITS], mask);
        }
        mask := Double(mask);
      }
      ModulusIsExp8();
      Enter(GF_BITS, gfExp[GF_BITS]);
    }

    /** The remaining powers, each from the one before. */
    method RemainingPowers()
      requires Shaped() && Filled(GF_BITS + 1)
      modifies gfExp, gfLog
      ensures Filled(GF_SIZE)
    {
      hide Shift, Exp, Byte, Index, Add;
      var mask: gf := 1 << (GF_BITS - 1);
      for i := GF_BITS + 1 to GF_SIZE
        invariant Filled(i)
      {
        var previous := gfExp[i - 1];
        NextPower(previous);
        ExpNext(i);
        ExpEight();
        if previous >= mask {
          Enter(i, gfExp[GF_BITS] ^ ((previous ^ mask) << 1));
        } else {
          Enter(i, previous << 1);
        }
      }
    }

    /** The logarithm and exponent tables. */
    method GeneratePowers()
      requires Shaped()
      modifies gfExp, gfLog
      ensures PowersReady()
    {
      hide Exp, Byte, Index, Add;
      FirstPowers();
      RemainingPowers();
      ghost var log := gfLog[..];
      gfLog[0] := GF_SIZE;
      forall i | 0 < i < 256 ensures Byte(i) != 0 && gfLog[i] == Log(Byte(i)) {
        SmallBytes();
        assert log[Index(Exp(Log(Byte(i))))] == Log(Byte(i));
      }
      ExtendPowers();
      assert forall i :: 0 <= i < 256 ==> gfLog[i] == gfLog[..][i];
    }

    /** The powers once more, so that a sum of logarithms need not be reduced. */
    method ExtendPowers()
      requires Shaped() && forall j :: 0 <= j < GF_SIZE ==> gfExp[j] == Exp(j)
      modifies gfExp
      ensures forall j :: 0 <= j < 2 * GF_SIZE ==> gfExp[j] == Exp(j % GF_SIZE)
    {
      hide Exp;
      for i := 0 to GF_SIZE
        invariant forall j :: 0 <= j < GF_SIZE ==> gfExp[j] == Exp(j)
        invariant forall j :: GF_SIZE <= j < GF_SIZE + i ==> gfExp[j] == Exp(j - GF_SIZE)
      {
        gfExp[i + GF_SIZE] := gfExp[i];
      }
      forall j | 0 <= j < 2 * GF_SIZE ensures gfExp[j] == Exp(j % GF_SIZE) {
        assert j % GF_SIZE == if j < GF_SIZE then j else j - GF_SIZE;
      }
    }

    /** The table of inverses. */
    method GenerateInverses()
      requires PowersReady()
      modifies inverse
      ensures InverseReady()
    {
      hide Exp, Inv, Mul, Byte, Index, Add;
      SmallBytes();
      inverse[0] := 0;
      inverse[1] := 1;
      MulByOne(1);
      InvUnique(1, 1);
      for i := 2 to GF_SIZE + 1
        invariant PowersReady()
        invariant forall j :: 0 <= j < i ==> inverse[j] == Inv(Byte(j))
      {
        var a := Byte(i);
        InverseByLog(a);
        inverse[i] := gfExp[GF_SIZE - gfLog[i]];
        ExpPeriod(GF_SIZE - Log(a));
      }
    }

    /** The entries below `n` that belong to two nonzero factors are in place. */
    ghost predicate DoneBelow(n: nat)
      requires Shaped() && n <= 65536
      reads mulTable
    {
      forall m :: 0 <= m < n && Row(m) > 0 && Column(m) > 0 ==>
        mulTable[m] == Mul(Byte(Row(m)), Byte(Column(m)))
    }

    /** The power whose exponent is the sum of two logarithms, the product unless one is 0. */
    method ProductFromLogs(i: nat, j: nat) returns (v: gf)
      requires PowersReady() && i < 256 && j < 256
      ensures i > 0 && j > 0 ==> v == Mul(Byte(i), Byte(j))
    {
      hide Exp, Mul, Byte, Index, Add;
      var log := ModNn(gfLog[i] + gfLog[j]);
      v := gfExp[log];
      if i > 0 && j > 0 {
        ProductByLogs(Byte(i), Byte(j));
      }
    }

    lemma PowersAreShaped()
      requires PowersReady()
      ensures Shaped()
    {}

    /** Row `i`: products by adding logarithms.  Entries for 0 are meaningless until cleared. */
    method FillRow(i: nat)
      requires Shaped() && PowersReady() && i < 256 && DoneBelow(i * 256)
      modifies mulTable
      ensures PowersReady() && DoneBelow(i * 256 + 256)
    {
      hide Exp, Mul, Byte, Row, Column, PowersReady, Index, Add;
      for j := 0 to GF_SIZE + 1
        invariant PowersReady() && DoneBelow(i * 256 + j)
      {
        var v := ProductFromLogs(i, j);
        CellOf(i, j);
        mulTable[i * 256 + j] := v;
      }
    }

    /** Clears the row and the column of 0. */
    method ClearZero()
      requires Shaped() && DoneBelow(65536)
      modifies mulTable
      ensures DoneBelow(65536)
      ensures forall p :: 0 <= p < 256 ==> mulTable[p] == 0 && mulTable[p * 256] == 0
    {
      hide Mul, Byte, Index, Row, Column;
      for j := 0 to GF_SIZE + 1
        invariant DoneBelow(65536)
        invariant forall p :: 0 <= p < j ==> mulTable[p] == 0 && mulTable[p * 256] == 0
      {
        CellOf(j, 0);
        CellOf(0, j);
        mulTable[j * 256] := 0;
        mulTable[j] := 0;
      }
    }

    method InitMulTable()
      requires PowersReady()
      modifies mulTable
      ensures MulReady()
    {
      hide Exp, Mul, Byte, Row, Column, PowersReady, Index;
      assert Shaped() by { PowersAreShaped(); }
      for i := 0 to GF_SIZE + 1
        invariant PowersReady() && DoneBelow(i * 256)
      {
        FillRow(i);
      }
      ClearZero();
      SmallBytes();
      forall i, j | 0 <= i < 256 && 0 <= j < 256
        ensures Cell(i, j) < 65536 && mulTable[Cell(i, j)] == Mul(Byte(i), Byte(j))
      {
        CellOf(i, j);
        if i == 0 || j == 0 {
          MulZero(Byte(i));
          MulZero(Byte(j));
        }
      }
    }

    /** Fills every table, once, before anything is coded. */
    method FecInit()
      requires Shaped()
      modifies this, gfExp, gfLog, inverse, mulTable
      ensures Ready()
    {
      GeneratePowers();
      GenerateInverses();
      InitMulTable();
      initialized := true;
    }

    /** The inverse of `a` from the table. */
    method Inverse(a: gf) returns (b: gf)
      requires Ready()
      ensures b == Inv(a)
    {
      hide Byte, Index;
      ByteIndex(a);
      b := inverse[Index(a)];
    }

    /** The table of inverses at an index. */
    method InverseAt(i: nat) returns (b: gf)
      requires Ready() && i < 256
      ensures b == Inv(Byte(i))
    {
      hide Byte, Index;
      b := inverse[i];
    }

    /** The product of `a` and `b` from the table. */
    method Product(a: gf, b: gf) returns (c: gf)
      requires Ready()
      ensures c == Mul(a, b)
    {
      hide Mul, Byte, Index, Add;
      ByteIndex(a);
      ByteIndex(b);
      c := mulTable[Cell(Index(a), Index(b))];
    }
  }
}
