/** What the multiplication of module Field means: the product of two bytes as polynomials over
    GF(2), reduced modulo x^8 + x^4 + x^3 + x^2 + 1. */
module Polynomial {
  import opened Field

  /** A polynomial of degree below 16. */
  type poly = bv16

  const MODULUS: poly := 0x11d

  function Plus(p: poly, q: poly): poly { p ^ q }
  function TimesX(p: poly): poly { p << 1 }
  function Select(b: gf, p: poly): poly { if b & 1 != 0 then p else 0 }
  function Widen(a: gf): poly { a as bv16 }

  /** The product, without any reduction, of `p` and the lowest `n` bits of `b`. */
  function Product(p: poly, b: gf, n: nat): poly
    decreases n
  {
    if n == 0 then 0 else Plus(Select(b, p), Product(TimesX(p), Half(b), n - 1))
  }

  lemma PlusAssoc(p: poly, q: poly, r: poly)
    ensures Plus(Plus(p, q), r) == Plus(p, Plus(q, r))
  {}

  lemma PlusComm(p: poly, q: poly)
    ensures Plus(p, q) == Plus(q, p)
  {}

  lemma PlusZero(p: poly)
    ensures Plus(p, 0) == p && Plus(0, p) == p
  {}

  lemma PlusSwap(p: poly, q: poly, r: poly, s: poly)
    ensures Plus(Plus(p, q), Plus(r, s)) == Plus(Plus(p, r), Plus(q, s))
  {
    hide Plus;
    PlusAssoc(p, q, Plus(r, s));
    PlusAssoc(q, r, s);
    PlusComm(q, r);
    PlusAssoc(r, q, s);
    PlusAssoc(p, r, Plus(q, s));
  }

  lemma TimesXPlus(p: poly, q: poly)
    ensures TimesX(Plus(p, q)) == Plus(TimesX(p), TimesX(q))
  {}

  lemma SelectPlus(b: gf, p: poly, q: poly)
    ensures Select(b, Plus(p, q)) == Plus(Select(b, p), Select(b, q))
  {}

  lemma SelectAdd(b: gf, c: gf, p: poly)
    ensures Select(Add(b, c), p) == Plus(Select(b, p), Select(c, p))
  {
    hide Add, Plus;
    LowBitAdd(b, c);
    PlusZero(p);
    PlusZero(0);
    PlusSelf(p);
  }

  lemma LowBitAdd(b: gf, c: gf)
    ensures (Add(b, c) & 1 != 0) == ((b & 1 != 0) != (c & 1 != 0))
  {}

  lemma PlusSelf(p: poly)
    ensures Plus(p, p) == 0
  {}

  lemma WidenLaws(a: gf, b: gf)
    ensures Widen(Gate(b, a)) == Select(b, Widen(a))
    ensures Widen(Add(a, b)) == Plus(Widen(a), Widen(b))
    ensures Widen(0) == 0
  {}

  lemma WidenShift(a: gf)
    ensures TimesX(Widen(a)) == Plus(Widen(Shift(a)), if a & 0x80 != 0 then MODULUS else 0)
  {}

  lemma {:induction false} ProductPlusLeft(p: poly, q: poly, b: gf, n: nat)
    ensures Product(Plus(p, q), b, n) == Plus(Product(p, b, n), Product(q, b, n))
    decreases n
  {
    hide Plus, TimesX, Select, Half;
    if n == 0 {
      PlusZero(0);
    } else {
      TimesXPlus(p, q);
      SelectPlus(b, p, q);
      ProductPlusLeft(TimesX(p), TimesX(q), Half(b), n - 1);
      PlusSwap(Select(b, p), Select(b, q), Product(TimesX(p), Half(b), n - 1), Product(TimesX(q), Half(b), n - 1));
    }
  }

  lemma {:induction false} ProductPlusRight(p: poly, b: gf, c: gf, n: nat)
    ensures Product(p, Add(b, c), n) == Plus(Product(p, b, n), Product(p, c, n))
    decreases n
  {
    hide Plus, TimesX, Select, Half, Add;
    if n == 0 {
      PlusZero(0);
    } else {
      SelectAdd(b, c, p);
      HalfAdd(b, c);
      ProductPlusRight(TimesX(p), Half(b), Half(c), n - 1);
      PlusSwap(Select(b, p), Select(c, p), Product(TimesX(p), Half(b), n - 1), Product(TimesX(p), Half(c), n - 1));
    }
  }

  lemma {:induction false} ProductZero(b: gf, n: nat)
    ensures Product(0, b, n) == 0
    decreases n
  {
    hide Half;
    if n > 0 {
      assert TimesX(0) == 0;
      ProductZero(Half(b), n - 1);
    }
  }

  lemma SelectZero(p: poly)
    ensures Select(0, p) == 0
  {}

  lemma {:induction false} ProductBelow(p: poly, b: gf, n: nat)
    requires Below(b, n)
    ensures Product(p, b, n + 1) == Product(p, b, n)
    decreases n
  {
    hide Plus, TimesX, Select, Half;
    if n == 0 {
      SelectZero(p);
      PlusZero(0);
    } else {
      ProductBelow(TimesX(p), Half(b), n - 1);
    }
  }

  lemma {:induction false} BelowLaws(b: gf, c: gf, n: nat)
    requires Below(b, n) && Below(c, n)
    ensures Below(Add(b, c), n) && Below(b, n + 1)
    decreases n
  {
    hide Add, Half;
    if n == 0 {
      AddZero(0);
      ShiftZero();
    } else {
      HalfAdd(b, c);
      BelowLaws(Half(b), Half(c), n - 1);
    }
  }

  /** Each level of the shift-and-add product differs from the true product by a multiple of the
      modulus. */
  lemma {:induction false} PartIsRemainder(a: gf, b: gf, n: nat) returns (q: gf)
    requires Below(b, n)
    ensures Below(q, n)
    ensures Product(Widen(a), b, n) == Plus(Widen(Part(a, b, n)), Product(MODULUS, q, n))
    decreases n
  {
    hide Plus, TimesX, Select, Half, Widen, Add, Shift, Gate;
    if n == 0 {
      q := 0;
      PlusZero(0);
      WidenLaws(0, 0);
    } else {
      var h := Half(b);
      q := PartIsRemainder(Shift(a), h, n - 1);
      var carry := if a & 0x80 != 0 then MODULUS else 0;
      WidenShift(a);
      ProductPlusLeft(Widen(Shift(a)), carry, h, n - 1);
      var rest := Widen(Part(Shift(a), h, n - 1));
      var multiple := Product(MODULUS, q, n - 1);
      PlusAssoc(rest, multiple, Product(carry, h, n - 1));
      PlusAssoc(Select(b, Widen(a)), rest, Plus(multiple, Product(carry, h, n - 1)));
      WidenLaws(a, b);
      WidenLaws(Gate(b, a), Part(Shift(a), h, n - 1));
      BelowLaws(q, q, n - 1);
      if a & 0x80 != 0 {
        ProductPlusRight(MODULUS, q, h, n - 1);
        BelowLaws(q, h, n - 1);
        q := Add(q, h);
        BelowLaws(q, q, n - 1);
      } else {
        ProductZero(h, n - 1);
        PlusZero(multiple);
      }
      ProductBelow(MODULUS, q, n - 1);
    }
  }

  /** `Mul(a, b)` is the remainder, of degree below 8, of the polynomial product of `a` and `b`. */
  lemma MulIsRemainder(a: gf, b: gf)
    ensures exists q: gf :: Product(Widen(a), b, 8) == Plus(Widen(Mul(a, b)), Product(MODULUS, q, 8))
  {
    hide Plus, Product, Widen, Part, Below;
    BelowSeven(b);
    var q := PartIsRemainder(a, b, 8);
  }
}
