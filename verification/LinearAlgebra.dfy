/** Vectors and matrices over the field, as values. */
module LinearAlgebra {
  import opened Field

  type Vec = seq<gf>
  type Matrix = seq<Vec>

  ghost predicate IsMatrix(m: Matrix, rows: nat, columns: nat) {
    |m| == rows && forall i :: 0 <= i < rows ==> |m[i]| == columns
  }

  ghost function Dot(u: Vec, v: Vec): gf
    requires |u| == |v|
  {
    if |u| == 0 then 0 else Add(Mul(u[0], v[0]), Dot(u[1..], v[1..]))
  }

  /** `m` maps `x` to `y`. */
  ghost predicate Maps(m: Matrix, x: Vec, y: Vec) {
    && IsMatrix(m, |y|, |x|)
    && forall i :: 0 <= i < |y| ==> Dot(m[i], x) == y[i]
  }

  ghost function Zeros(k: nat): (v: Vec)
    ensures |v| == k && forall i :: 0 <= i < k ==> v[i] == 0
  {
    seq(k, _ => 0)
  }

  /** The vector that is 1 at `j` and 0 elsewhere. */
  ghost function Unit(k: nat, j: nat): (v: Vec)
    requires j < k
    ensures |v| == k && forall i :: 0 <= i < k ==> v[i] == if i == j then 1 else 0
  {
    Zeros(k)[j := 1]
  }

  ghost function Column(m: Matrix, k: nat, j: nat): (v: Vec)
    requires IsMatrix(m, |m|, k) && j < k
    ensures |v| == |m| && forall i :: 0 <= i < |m| ==> v[i] == m[i][j]
  {
    seq(|m|, i requires 0 <= i < |m| => m[i][j])
  }

  /** The product of `a` and `b` is the identity matrix of size `k`. */
  ghost predicate ProductIsIdentity(a: Matrix, b: Matrix, k: nat) {
    && IsMatrix(a, k, k) && IsMatrix(b, k, k)
    && forall i, j :: 0 <= i < k && 0 <= j < k ==>
      Dot(a[i], Column(b, k, j)) == if i == j then 1 else 0
  }

  /** `b` is the two-sided inverse of `a`. */
  ghost predicate IsInverse(a: Matrix, b: Matrix, k: nat) {
    ProductIsIdentity(a, b, k) && ProductIsIdentity(b, a, k)
  }

  /** Some vector other than 0 is mapped to 0. */
  ghost predicate Singular(m: Matrix, k: nat) {
    exists x: Vec :: |x| == k && x != Zeros(k) && Maps(m, x, Zeros(k))
  }

  // ----- the dot product is bilinear

  lemma {:induction false} DotSplit(u: Vec, v: Vec, p: nat)
    requires |u| == |v| && p < |u|
    ensures Dot(u, v) == Add(Mul(u[p], v[p]), Dot(u[p := 0], v))
  {
    hide Add, Mul;
    if p == 0 {
      assert u[0 := 0][1..] == u[1..];
      MulZero(v[0]);
      AddZero(Dot(u[1..], v[1..]));
    } else {
      DotSplit(u[1..], v[1..], p - 1);
      assert u[p := 0][1..] == u[1..][p - 1 := 0];
      var head, term, rest := Mul(u[0], v[0]), Mul(u[p], v[p]), Dot(u[1..][p - 1 := 0], v[1..]);
      AddAssoc(head, term, rest);
      AddComm(head, term);
      AddAssoc(term, head, rest);
    }
  }

  lemma {:induction false} DotIgnore(u: Vec, v: Vec, p: nat, a: gf)
    requires |u| == |v| && p < |u| && u[p] == 0
    ensures Dot(u, v[p := a]) == Dot(u, v)
  {
    hide Add, Mul;
    if p == 0 {
      assert v[0 := a][1..] == v[1..];
      MulZero(v[0]);
      MulZero(a);
    } else {
      DotIgnore(u[1..], v[1..], p - 1, a);
      assert v[p := a][1..] == v[1..][p - 1 := a];
    }
  }

  lemma {:induction false} DotScale(u: Vec, c: gf, s: Vec, v: Vec)
    requires |u| == |s| == |v|
    requires forall i :: 0 <= i < |u| ==> s[i] == Mul(c, u[i])
    ensures Dot(s, v) == Mul(c, Dot(u, v))
  {
    hide Add, Mul;
    if |u| == 0 {
      MulZero(c);
    } else {
      DotScale(u[1..], c, s[1..], v[1..]);
      MulAssoc(c, u[0], v[0]);
      MulAddRight(c, Mul(u[0], v[0]), Dot(u[1..], v[1..]));
    }
  }

  lemma {:induction false} DotAddScaled(u: Vec, w: Vec, c: gf, s: Vec, v: Vec)
    requires |u| == |w| == |s| == |v|
    requires forall i :: 0 <= i < |u| ==> s[i] == Add(u[i], Mul(c, w[i]))
    ensures Dot(s, v) == Add(Dot(u, v), Mul(c, Dot(w, v)))
  {
    hide Add, Mul;
    if |u| == 0 {
      MulZero(c);
      AddZero(0);
    } else {
      DotAddScaled(u[1..], w[1..], c, s[1..], v[1..]);
      MulAddLeft(u[0], Mul(c, w[0]), v[0]);
      MulAssoc(c, w[0], v[0]);
      MulAddRight(c, Mul(w[0], v[0]), Dot(w[1..], v[1..]));
      AddSwap(Mul(u[0], v[0]), Mul(c, Mul(w[0], v[0])), Dot(u[1..], v[1..]), Mul(c, Dot(w[1..], v[1..])));
    }
  }

  lemma {:induction false} DotComm(u: Vec, v: Vec)
    requires |u| == |v|
    ensures Dot(u, v) == Dot(v, u)
  {
    hide Add, Mul;
    if |u| > 0 {
      MulComm(u[0], v[0]);
      DotComm(u[1..], v[1..]);
    }
  }

  lemma {:induction false} DotZeros(u: Vec, v: Vec)
    requires |u| == |v| && forall i :: 0 <= i < |u| ==> u[i] == 0
    ensures Dot(u, v) == 0 && Dot(v, u) == 0
  {
    hide Add, Mul;
    if |u| > 0 {
      MulZero(v[0]);
      AddZero(0);
      DotZeros(u[1..], v[1..]);
    }
  }

  lemma DotUnit(u: Vec, j: nat)
    requires j < |u|
    ensures Dot(u, Unit(|u|, j)) == u[j] == Dot(Unit(|u|, j), u)
  {
    hide Add, Mul;
    var e := Unit(|u|, j);
    DotComm(u, e);
    DotSplit(e, u, j);
    DotZeros(e[j := 0], u);
    MulByOneLeft(u[j]);
    AddZero(u[j]);
  }

  ghost function Swapped<T>(s: seq<T>, a: nat, b: nat): (t: seq<T>)
    requires a < |s| && b < |s|
    ensures |t| == |s|
  {
    s[a := s[b]][b := s[a]]
  }

  /** Exchanging the same two components of both vectors. */
  lemma DotSwapped(u: Vec, v: Vec, a: nat, b: nat)
    requires |u| == |v| && a < |u| && b < |u|
    ensures Dot(Swapped(u, a, b), Swapped(v, a, b)) == Dot(u, v)
  {
    hide Add, Mul, Dot;
    if a != b {
      var u2, v2 := Swapped(u, a, b), Swapped(v, a, b);
      DotSplit(u, v, a);
      DotSplit(u[a := 0], v, b);
      DotSplit(u2, v2, b);
      DotSplit(u2[b := 0], v2, a);
      var rest := u[a := 0][b := 0];
      assert u2[b := 0][a := 0] == rest;
      DotIgnore(rest, v, a, v[b]);
      DotIgnore(rest, v[a := v[b]], b, v[a]);
    } else {
      assert Swapped(u, a, b) == u && Swapped(v, a, b) == v;
    }
  }

  // ----- inverses and singularity

  /** An exchange of arguments and results is a two-sided inverse. */
  lemma ExchangeIsInverse(a: Matrix, b: Matrix, k: nat)
    requires IsMatrix(a, k, k) && IsMatrix(b, k, k)
    requires forall x: Vec, y: Vec {:trigger Maps(a, x, y)} {:trigger Maps(b, y, x)} ::
      |x| == k && |y| == k ==> (Maps(a, x, y) <==> Maps(b, y, x))
    ensures IsInverse(a, b, k)
  {
    hide Dot;
    forall i, j | 0 <= i < k && 0 <= j < k
      ensures Dot(a[i], Column(b, k, j)) == if i == j then 1 else 0
      ensures Dot(b[i], Column(a, k, j)) == if i == j then 1 else 0
    {
      ColumnOfUnit(b, k, j);
      assert Maps(a, Column(b, k, j), Unit(k, j));
      ColumnOfUnit(a, k, j);
      assert Maps(b, Column(a, k, j), Unit(k, j));
    }
  }

  lemma ColumnOfUnit(m: Matrix, k: nat, j: nat)
    requires IsMatrix(m, k, k) && j < k
    ensures Maps(m, Unit(k, j), Column(m, k, j))
  {
    hide Dot;
    forall i | 0 <= i < k ensures Dot(m[i], Unit(k, j)) == m[i][j] {
      DotUnit(m[i], j);
    }
  }

  /** b * (m * x) == (b * m) * x */
  lemma {:induction false} DotAssoc(b: Vec, m: Matrix, x: Vec, y: Vec, s: Vec)
    requires Maps(m, x, y) && |b| == |m| && |s| == |x|
    requires forall j :: 0 <= j < |x| ==> s[j] == Dot(b, Column(m, |x|, j))
    ensures Dot(b, y) == Dot(s, x)
  {
    hide Add, Mul;
    if |b| == 0 {
      DotZeros(s, x);
    } else {
      var rest := seq(|x|, j requires 0 <= j < |x| => Dot(b[1..], Column(m[1..], |x|, j)));
      forall i | 0 <= i < |y[1..]| ensures Dot(m[1..][i], x) == y[1..][i] {
        assert m[1..][i] == m[i + 1];
      }
      DotAssoc(b[1..], m[1..], x, y[1..], rest);
      forall j | 0 <= j < |x| ensures s[j] == Add(rest[j], Mul(b[0], m[0][j])) {
        assert Column(m, |x|, j)[1..] == Column(m[1..], |x|, j);
        AddComm(rest[j], Mul(b[0], m[0][j]));
      }
      DotAddScaled(rest, m[0], b[0], s, x);
      AddComm(Dot(rest, x), Mul(b[0], Dot(m[0], x)));
    }
  }

  /** A matrix with a left inverse is not singular. */
  lemma InvertibleIsNotSingular(a: Matrix, b: Matrix, k: nat)
    requires ProductIsIdentity(b, a, k)
    ensures !Singular(a, k)
  {
    hide Dot;
    forall x: Vec | |x| == k && Maps(a, x, Zeros(k)) ensures x == Zeros(k) {
      forall i | 0 <= i < k ensures x[i] == 0 {
        DotAssoc(b[i], a, x, Zeros(k), Unit(k, i));
        DotUnit(x, i);
        DotZeros(Zeros(k), b[i]);
      }
    }
  }
}
