/** Cauchy matrices 1 / (p_i + q_j) are not singular, and neither are their leading minors.  The
    coefficients of the code are such a matrix. */
module Cauchy {
  import opened Field
  import opened LinearAlgebra
  import opened Exchange

  ghost predicate Distinct<T>(s: seq<T>) {
    forall i, j :: 0 <= i < j < |s| ==> s[i] != s[j]
  }

  ghost predicate Disjoint<T>(s: seq<T>, t: seq<T>) {
    forall i, j :: 0 <= i < |s| && 0 <= j < |t| ==> s[i] != t[j]
  }

  ghost function CauchyRow(p: gf, q: seq<gf>): (row: Vec)
    ensures |row| == |q| && forall j :: 0 <= j < |q| ==> row[j] == Inv(Add(p, q[j]))
  {
    seq(|q|, j requires 0 <= j < |q| => Inv(Add(p, q[j])))
  }

  ghost function CauchyMatrix(p: seq<gf>, q: seq<gf>): (m: Matrix)
    ensures IsMatrix(m, |p|, |q|)
  {
    seq(|p|, i requires 0 <= i < |p| => CauchyRow(p[i], q))
  }

  /** 1/u + 1/v == (u + v) / (u * v) */
  lemma SumOfInverses(u: gf, v: gf)
    requires u != 0 && v != 0
    ensures Add(Inv(u), Inv(v)) == Mul(Mul(Add(u, v), Inv(v)), Inv(u))
  {
    hide Add, Mul, Inv;
    var a, b := Inv(u), Inv(v);
    MulAddLeft(u, v, b);
    MulAddLeft(Mul(u, b), 1, a);
    MulComm(u, b);
    MulAssoc(b, u, a);
    MulByOne(b);
    MulByOneLeft(a);
    AddComm(a, b);
  }

  /** Elimination of the first column: with e = q + q0, u = p + q and v = p0 + q,
      (p + q0) / u + (p0 + q0) / v == (p + p0) * (e / v) / u. */
  lemma SchurEntry(p: gf, p0: gf, q: gf, q0: gf)
    requires Add(p, q) != 0 && Add(p0, q) != 0
    ensures Add(Mul(Add(p, q0), Inv(Add(p, q))), Mul(Add(p0, q0), Inv(Add(p0, q)))) ==
            Mul(Mul(Add(p, p0), Mul(Add(q, q0), Inv(Add(p0, q)))), Inv(Add(p, q)))
  {
    hide Add, Mul, Inv;
    var e, u, v := Add(q, q0), Add(p, q), Add(p0, q);
    Shifted(p, q, q0);
    Shifted(p0, q, q0);
    assert Add(p, q0) == Add(u, e) && Add(p0, q0) == Add(v, e);
    MulAddLeft(u, e, Inv(u));
    MulAddLeft(v, e, Inv(v));
    // both quotients are 1 plus a multiple of e
    AddSwap(1, Mul(e, Inv(u)), 1, Mul(e, Inv(v)));
    AddSelf(1);
    MulAddRight(e, Inv(u), Inv(v));
    AddZero(Mul(e, Add(Inv(u), Inv(v))));
    SumOfInverses(u, v);
    AddCancel(p, p0, q);
    Regroup(e, Add(u, v), Inv(v), Inv(u));
  }

  lemma Shifted(p: gf, q: gf, q0: gf)
    ensures Add(Add(p, q), Add(q, q0)) == Add(p, q0)
  {
    hide Add;
    AddAssoc(p, q, Add(q, q0));
    AddAssoc(q, q, q0);
    AddSelf(q);
    AddZero(q0);
  }

  lemma AddCancel(p: gf, p0: gf, q: gf)
    ensures Add(Add(p, q), Add(p0, q)) == Add(p, p0)
  {
    hide Add;
    AddSwap(p, q, p0, q);
    AddSelf(q);
    AddZero(Add(p, p0));
  }

  lemma Regroup(e: gf, s: gf, b: gf, a: gf)
    ensures Mul(e, Mul(Mul(s, b), a)) == Mul(Mul(s, Mul(e, b)), a)
  {
    hide Mul;
    MulAssoc(e, Mul(s, b), a);
    MulAssoc(e, s, b);
    MulComm(e, s);
    MulAssoc(s, e, b);
  }

  lemma {:induction false} DotTermwise(s: Vec, x: Vec, c: gf, r: Vec, y: Vec)
    requires |s| == |x| == |r| == |y|
    requires forall j :: 0 <= j < |s| ==> Mul(s[j], x[j]) == Mul(c, Mul(r[j], y[j]))
    ensures Dot(s, x) == Mul(c, Dot(r, y))
  {
    hide Add, Mul;
    if |s| == 0 {
      MulZero(c);
    } else {
      DotTermwise(s[1..], x[1..], c, r[1..], y[1..]);
      MulAddRight(c, Mul(r[0], y[0]), Dot(r[1..], y[1..]));
    }
  }

  /** The factors that the unknowns pick up in the elimination of the first column. */
  ghost function Scaling(p0: gf, q: seq<gf>, q0: gf, x: Vec): (y: Vec)
    requires |q| == |x|
    ensures |y| == |x|
    ensures forall j :: 0 <= j < |x| ==> y[j] == Mul(Mul(Add(q[j], q0), Inv(Add(p0, q[j]))), x[j])
  {
    seq(|x|, j requires 0 <= j < |x| => Mul(Mul(Add(q[j], q0), Inv(Add(p0, q[j]))), x[j]))
  }

  /** One reduced equation: again a Cauchy row, of scaled unknowns. */
  lemma SchurRow(p: gf, p0: gf, q: seq<gf>, x: Vec)
    requires |q| == |x| > 0 && p != p0
    requires forall j :: 0 <= j < |q| ==> Add(p, q[j]) != 0 && Add(p0, q[j]) != 0
    requires Dot(CauchyRow(p, q), x) == 0 && Dot(CauchyRow(p0, q), x) == 0
    ensures Dot(CauchyRow(p, q[1..]), Scaling(p0, q[1..], q[0], x[1..])) == 0
  {
    hide Add, Mul, Inv;
    var f, d, c := Add(p, q[0]), Add(p0, q[0]), Add(p, p0);
    var row, row0 := CauchyRow(p, q), CauchyRow(p0, q);
    var scaled := seq(|q|, j requires 0 <= j < |q| => Mul(f, row[j]));
    var s := seq(|q|, j requires 0 <= j < |q| => Add(scaled[j], Mul(d, row0[j])));
    DotScale(row, f, scaled, x);
    DotAddScaled(scaled, row0, d, s, x);
    MulZero(f);
    MulZero(d);
    AddZero(0);
    assert Dot(s, x) == 0;
    AddSelf(1);
    assert s[0] == 0;
    MulZero(x[0]);
    AddZero(Dot(s[1..], x[1..]));
    var q', x' := q[1..], x[1..];
    var r, y := CauchyRow(p, q'), Scaling(p0, q', q[0], x');
    forall j | 0 <= j < |q'| ensures Mul(s[1..][j], x'[j]) == Mul(c, Mul(r[j], y[j])) {
      SchurEntry(p, p0, q'[j], q[0]);
      Reorder(c, Mul(Add(q'[j], q[0]), Inv(Add(p0, q'[j]))), r[j], x'[j]);
    }
    DotTermwise(s[1..], x', c, r, y);
    AddZeroIsEqual(p, p0);
    if Dot(r, y) != 0 {
      MulNonzero(c, Dot(r, y));
      assert false;
    }
  }

  lemma Reorder(c: gf, g: gf, r: gf, x: gf)
    ensures Mul(Mul(Mul(c, g), r), x) == Mul(c, Mul(r, Mul(g, x)))
  {
    hide Mul;
    MulAssoc(Mul(c, g), r, x);
    MulAssoc(c, g, Mul(r, x));
    MulAssoc(g, r, x);
    MulComm(g, r);
    MulAssoc(r, g, x);
  }

  lemma {:induction false} CauchyKernel(p: seq<gf>, q: seq<gf>, x: Vec)
    requires |p| == |q| == |x| && Distinct(p) && Distinct(q) && Disjoint(p, q)
    requires forall i :: 0 <= i < |p| ==> Dot(CauchyRow(p[i], q), x) == 0
    ensures x == Zeros(|x|)
    decreases |p|
  {
    hide Add, Mul, Inv;
    if |p| > 0 {
      var q', x' := q[1..], x[1..];
      var y := Scaling(p[0], q', q[0], x');
      forall i, j | 0 <= i < |p| && 0 <= j < |q| ensures Add(p[i], q[j]) != 0 {
        AddZeroIsEqual(p[i], q[j]);
      }
      forall i | 0 <= i < |p[1..]| ensures Dot(CauchyRow(p[1..][i], q'), y) == 0 {
        SchurRow(p[i + 1], p[0], q, x);
      }
      CauchyKernel(p[1..], q', y);
      forall j | 0 <= j < |x'| ensures x'[j] == 0 {
        AddZeroIsEqual(q'[j], q[0]);
        var g := Mul(Add(q'[j], q[0]), Inv(Add(p[0], q'[j])));
        MulNonzero(Add(q'[j], q[0]), Inv(Add(p[0], q'[j])));
        if x'[j] != 0 {
          MulNonzero(g, x'[j]);
          assert false;
        }
      }
      FirstUnknown(p[0], q, x);
      assert x == Zeros(|x|);
    }
  }

  lemma FirstUnknown(p: gf, q: seq<gf>, x: Vec)
    requires |q| == |x| > 0 && Add(p, q[0]) != 0 && Dot(CauchyRow(p, q), x) == 0
    requires forall j :: 0 <= j < |x[1..]| ==> x[1..][j] == 0
    ensures x[0] == 0
  {
    hide Add, Mul, Inv;
    var row := CauchyRow(p, q);
    DotZeros(x[1..], row[1..]);
    AddZero(Mul(row[0], x[0]));
    if x[0] != 0 {
      MulNonzero(row[0], x[0]);
      assert false;
    }
  }

  lemma CauchyIsNotSingular(p: seq<gf>, q: seq<gf>)
    requires |p| == |q| && Distinct(p) && Distinct(q) && Disjoint(p, q)
    ensures !Singular(CauchyMatrix(p, q), |p|)
  {
    hide Dot;
    var m := CauchyMatrix(p, q);
    forall x: Vec | |x| == |p| && Maps(m, x, Zeros(|p|)) ensures x == Zeros(|p|) {
      forall i | 0 <= i < |p| ensures Dot(CauchyRow(p[i], q), x) == 0 {
        assert Dot(m[i], x) == Zeros(|p|)[i];
      }
      CauchyKernel(p, q, x);
    }
  }

  lemma CauchyMinorsAreNotSingular(p: seq<gf>, q: seq<gf>)
    requires |p| == |q| && Distinct(p) && Distinct(q) && Disjoint(p, q)
    ensures LeadingMinorsNonsingular(CauchyMatrix(p, q), |p|)
  {
    hide Inv, Singular;
    var k, m := |p|, CauchyMatrix(p, q);
    forall n | 0 < n <= k ensures !Singular(Leading(m, k, n), n) {
      CauchyIsNotSingular(p[..n], q[..n]);
      assert Leading(m, k, n) == CauchyMatrix(p[..n], q[..n]) by {
        forall i | 0 <= i < n ensures m[i][..n] == CauchyMatrix(p[..n], q[..n])[i] {}
      }
    }
  }
}
