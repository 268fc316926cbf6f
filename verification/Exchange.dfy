/** The algebra of Gauss-Jordan elimination in place.  While a matrix is being inverted, the array
    holds neither the matrix nor its inverse but a matrix that exchanges the arguments and the
    results of the pivots done so far. */
module Exchange {
  import opened Field
  import opened LinearAlgebra

  /** `s` where `pivoted` is set and `t` elsewhere. */
  ghost function Mixed(pivoted: seq<bool>, s: Vec, t: Vec): (v: Vec)
    requires |pivoted| == |s| == |t|
    ensures |v| == |s| && forall i :: 0 <= i < |s| ==> v[i] == if pivoted[i] then s[i] else t[i]
  {
    seq(|s|, i requires 0 <= i < |s| => if pivoted[i] then s[i] else t[i])
  }

  ghost predicate IsOrder(order: seq<nat>, k: nat) {
    |order| == k && forall i :: 0 <= i < k ==> order[i] < k
  }

  ghost function Permuted(y: Vec, order: seq<nat>): (v: Vec)
    requires IsOrder(order, |y|)
    ensures |v| == |y| && forall i :: 0 <= i < |y| ==> v[i] == y[order[i]]
  {
    seq(|y|, i requires 0 <= i < |y| => y[order[i]])
  }

  ghost function Identity(k: nat): (order: seq<nat>)
    ensures IsOrder(order, k) && forall i :: 0 <= i < k ==> order[i] == i
  {
    seq(k, i requires 0 <= i < k => i)
  }

  /** `a` maps x to y exactly when `s` maps the vector with pivoted results and other arguments to
      the vector with pivoted arguments and other results.  Row i of `s` stands for result
      `order[i]` of `a`. */
  ghost predicate Exchanges(a: Matrix, s: Matrix, pivoted: seq<bool>, order: seq<nat>, k: nat) {
    && IsMatrix(a, k, k) && IsMatrix(s, k, k) && |pivoted| == k && IsOrder(order, k)
    && forall x: Vec, y: Vec {:trigger Maps(a, x, y)} {:trigger ExchangedMaps(s, pivoted, order, x, y)} ::
      |x| == k && |y| == k ==> (Maps(a, x, y) <==> ExchangedMaps(s, pivoted, order, x, y))
  }

  ghost predicate ExchangedMaps(s: Matrix, pivoted: seq<bool>, order: seq<nat>, x: Vec, y: Vec)
    requires |x| == |y| == |pivoted| && IsOrder(order, |y|)
  {
    Maps(s, Mixed(pivoted, Permuted(y, order), x), Mixed(pivoted, x, Permuted(y, order)))
  }

  lemma ExchangeStart(a: Matrix, k: nat)
    requires IsMatrix(a, k, k)
    ensures Exchanges(a, a, seq(k, _ => false), Identity(k), k)
  {
    hide Maps;
    var none := seq(k, _ => false);
    forall x: Vec, y: Vec | |x| == k && |y| == k
      ensures Maps(a, x, y) <==> ExchangedMaps(a, none, Identity(k), x, y)
    {
      assert Permuted(y, Identity(k)) == y;
      assert Mixed(none, y, x) == x && Mixed(none, x, y) == y;
    }
  }

  // ----- exchanging two rows

  lemma MapsSwapped(s: Matrix, z: Vec, w: Vec, a: nat, b: nat)
    requires IsMatrix(s, |w|, |z|) && a < |w| && b < |w|
    ensures Maps(s, z, w) <==> Maps(Swapped(s, a, b), z, Swapped(w, a, b))
  {
    hide Dot;
    var s2, w2 := Swapped(s, a, b), Swapped(w, a, b);
    if Maps(s2, z, w2) {
      forall i | 0 <= i < |w| ensures Dot(s[i], z) == w[i] {
        var j := if i == a then b else if i == b then a else i;
        assert Dot(s2[j], z) == w2[j];
      }
    }
  }

  lemma ExchangeSwapRows(a: Matrix, s: Matrix, pivoted: seq<bool>, order: seq<nat>, k: nat, p: nat, q: nat)
    requires Exchanges(a, s, pivoted, order, k)
    requires p < k && q < k && !pivoted[p] && !pivoted[q]
    ensures Exchanges(a, Swapped(s, p, q), pivoted, Swapped(order, p, q), k)
  {
    hide Maps;
    var order2 := Swapped(order, p, q);
    forall x: Vec, y: Vec | |x| == k && |y| == k
      ensures Maps(a, x, y) <==> ExchangedMaps(Swapped(s, p, q), pivoted, order2, x, y)
    {
      var z, w := Mixed(pivoted, Permuted(y, order), x), Mixed(pivoted, x, Permuted(y, order));
      MapsSwapped(s, z, w, p, q);
      assert z == Mixed(pivoted, Permuted(y, order2), x);
      assert Swapped(w, p, q) == Mixed(pivoted, x, Permuted(y, order2));
    }
  }

  // ----- the pivot step

  /** Row `p` divided by its pivot, with the reciprocal of the pivot in its place. */
  ghost function PivotRow(row: Vec, p: nat): (r: Vec)
    requires p < |row|
    ensures |r| == |row|
    ensures forall j :: 0 <= j < |row| ==> r[j] == Mul(Inv(row[p]), row[p := 1][j])
  {
    seq(|row|, j requires 0 <= j < |row| => Mul(Inv(row[p]), row[p := 1][j]))
  }

  /** Another row, from which the pivot column has been eliminated. */
  ghost function OtherRow(row: Vec, pivotRow: Vec, p: nat): (r: Vec)
    requires p < |row| == |pivotRow|
    ensures |r| == |row|
    ensures forall j :: 0 <= j < |row| ==> r[j] == Add(row[p := 0][j], Mul(row[p], pivotRow[j]))
  {
    seq(|row|, j requires 0 <= j < |row| => Add(row[p := 0][j], Mul(row[p], pivotRow[j])))
  }

  ghost function PivotStep(s: Matrix, k: nat, p: nat): (t: Matrix)
    requires IsMatrix(s, k, k) && p < k
    ensures IsMatrix(t, k, k)
  {
    seq(k, i requires 0 <= i < k =>
      if i == p then PivotRow(s[p], p) else OtherRow(s[i], PivotRow(s[p], p), p))
  }

  lemma PivotRowMaps(row: Vec, p: nat, z: Vec, b: gf)
    requires p < |row| == |z| && row[p] != 0
    ensures Dot(row, z) == b <==> Dot(PivotRow(row, p), z[p := b]) == z[p]
  {
    hide Add, Mul, Inv, Dot;
    var c, rest := row[p], Dot(row[p := 0], z);
    var z2 := z[p := b];
    DotSplit(row, z, p);
    DotScale(row[p := 1], Inv(c), PivotRow(row, p), z2);
    DotSplit(row[p := 1], z2, p);
    assert row[p := 1][p := 0] == row[p := 0];
    DotIgnore(row[p := 0], z, p, b);
    MulByOneLeft(b);
    // Dot(row, z) == c * z[p] + rest, and the new row gives (b + rest) / c
    AddMove(Mul(c, z[p]), rest, b);
    Divide(c, z[p], Add(b, rest));
  }

  /** c * a == b exactly when b / c == a */
  lemma Divide(c: gf, a: gf, b: gf)
    requires c != 0
    ensures Mul(c, a) == b <==> Mul(Inv(c), b) == a
  {
    hide Mul, Inv;
    MulAssoc(Inv(c), c, a);
    MulAssoc(c, Inv(c), b);
    MulByOneLeft(a);
    MulByOneLeft(b);
  }

  lemma OtherRowMaps(row: Vec, pivotRow: Vec, p: nat, z: Vec, b: gf)
    requires p < |row| == |pivotRow| == |z|
    requires Dot(pivotRow, z[p := b]) == z[p]
    ensures Dot(OtherRow(row, pivotRow, p), z[p := b]) == Dot(row, z)
  {
    hide Add, Mul, Dot;
    var z2 := z[p := b];
    DotAddScaled(row[p := 0], pivotRow, row[p], OtherRow(row, pivotRow, p), z2);
    DotIgnore(row[p := 0], z, p, b);
    DotSplit(row, z, p);
    AddComm(Dot(row[p := 0], z), Mul(row[p], z[p]));
  }

  /** A pivot step exchanges one argument with one result. */
  lemma PivotMaps(s: Matrix, k: nat, p: nat, z: Vec, w: Vec)
    requires IsMatrix(s, k, k) && p < k && |z| == k && |w| == k && s[p][p] != 0
    ensures Maps(s, z, w) <==> Maps(PivotStep(s, k, p), z[p := w[p]], w[p := z[p]])
  {
    hide Dot, Inv, Add, Mul;
    var z2, w2 := z[p := w[p]], w[p := z[p]];
    var t := PivotStep(s, k, p);
    PivotRowMaps(s[p], p, z, w[p]);
    if Dot(t[p], z2) == w2[p] {
      forall i | 0 <= i < k && i != p ensures Dot(t[i], z2) == Dot(s[i], z) {
        OtherRowMaps(s[i], t[p], p, z, w[p]);
      }
    }
  }

  lemma ExchangePivot(a: Matrix, s: Matrix, pivoted: seq<bool>, order: seq<nat>, k: nat, p: nat)
    requires Exchanges(a, s, pivoted, order, k)
    requires p < k && !pivoted[p] && s[p][p] != 0
    ensures Exchanges(a, PivotStep(s, k, p), pivoted[p := true], order, k)
  {
    hide Maps, PivotStep;
    forall x: Vec, y: Vec | |x| == k && |y| == k
      ensures Maps(a, x, y) <==> ExchangedMaps(PivotStep(s, k, p), pivoted[p := true], order, x, y)
    {
      var z, w := Mixed(pivoted, Permuted(y, order), x), Mixed(pivoted, x, Permuted(y, order));
      PivotMaps(s, k, p, z, w);
      assert z[p := w[p]] == Mixed(pivoted[p := true], Permuted(y, order), x);
      assert w[p := z[p]] == Mixed(pivoted[p := true], x, Permuted(y, order));
    }
  }

  // ----- when there is no pivot

  /** If everything outside of the pivoted rows and columns is 0, the matrix is singular. */
  lemma NoPivotIsSingular(a: Matrix, s: Matrix, pivoted: seq<bool>, order: seq<nat>, k: nat, j: nat)
    requires Exchanges(a, s, pivoted, order, k)
    requires j < k && !pivoted[j]
    requires forall r :: 0 <= r < k && !pivoted[r] ==> s[r][j] == 0
    ensures Singular(a, k)
  {
    hide Maps;
    NoPivotMaps(a, s, pivoted, order, k, j);
    assert Mixed(pivoted, Column(s, k, j), Unit(k, j))[j] == 1;
  }

  lemma NoPivotMaps(a: Matrix, s: Matrix, pivoted: seq<bool>, order: seq<nat>, k: nat, j: nat)
    requires Exchanges(a, s, pivoted, order, k)
    requires j < k && !pivoted[j]
    requires forall r :: 0 <= r < k && !pivoted[r] ==> s[r][j] == 0
    ensures Maps(a, Mixed(pivoted, Column(s, k, j), Unit(k, j)), Zeros(k))
  {
    hide Maps, Unit, Zeros, Column, Mixed, Permuted;
    var x := Mixed(pivoted, Column(s, k, j), Unit(k, j));
    var y := Zeros(k);
    assert Permuted(y, order) == y;
    assert Mixed(pivoted, y, x) == Unit(k, j);
    assert Mixed(pivoted, x, y) == Column(s, k, j);
    ColumnOfUnit(s, k, j);
    assert ExchangedMaps(s, pivoted, order, x, y);
  }

  // ----- undoing the row exchanges on the columns

  lemma MapsSwappedColumns(s: Matrix, t: Matrix, k: nat, z: Vec, w: Vec, a: nat, b: nat)
    requires IsMatrix(s, k, k) && IsMatrix(t, k, k) && a < k && b < k && |z| == k && |w| == k
    requires forall i :: 0 <= i < k ==> t[i] == Swapped(s[i], a, b)
    ensures Maps(s, Swapped(z, a, b), w) <==> Maps(t, z, w)
  {
    hide Dot;
    forall i | 0 <= i < k ensures Dot(s[i], Swapped(z, a, b)) == Dot(t[i], z) {
      DotSwapped(t[i], z, a, b);
      assert Swapped(t[i], a, b) == s[i];
    }
  }

  ghost function All(k: nat): (p: seq<bool>)
    ensures |p| == k && forall i :: 0 <= i < k ==> p[i]
  {
    seq(k, _ => true)
  }

  lemma ExchangeSwapColumns(a: Matrix, s: Matrix, t: Matrix, order: seq<nat>, k: nat, p: nat, q: nat)
    requires p < k && q < k && IsOrder(order, k) && Exchanges(a, s, All(k), Swapped(order, p, q), k)
    requires IsMatrix(t, k, k) && forall i :: 0 <= i < k ==> t[i] == Swapped(s[i], p, q)
    ensures Exchanges(a, t, All(k), order, k)
  {
    hide Maps;
    forall x: Vec, y: Vec | |x| == k && |y| == k
      ensures Maps(a, x, y) <==> ExchangedMaps(t, All(k), order, x, y)
    {
      var before := Permuted(y, Swapped(order, p, q));
      var after := Permuted(y, order);
      assert before == Swapped(after, p, q);
      MapsSwappedColumns(s, t, k, after, x, p, q);
      assert Mixed(All(k), before, x) == before && Mixed(All(k), x, before) == x;
      assert Mixed(All(k), after, x) == after && Mixed(All(k), x, after) == x;
      assert ExchangedMaps(s, All(k), Swapped(order, p, q), x, y) <==> Maps(s, before, x);
    }
  }

  lemma ExchangeEnd(a: Matrix, b: Matrix, k: nat)
    requires Exchanges(a, b, All(k), Identity(k), k)
    ensures IsInverse(a, b, k)
    ensures !Singular(a, k)
  {
    hide Maps;
    forall x: Vec, y: Vec | |x| == k && |y| == k ensures Maps(a, x, y) <==> Maps(b, y, x) {
      assert Permuted(y, Identity(k)) == y;
      assert Mixed(All(k), y, x) == y && Mixed(All(k), x, y) == x;
      assert ExchangedMaps(b, All(k), Identity(k), x, y) <==> Maps(b, y, x);
    }
    ExchangeIsInverse(a, b, k);
    InvertibleIsNotSingular(a, b, k);
  }

  // ----- leading minors

  ghost function Leading(a: Matrix, k: nat, m: nat): (l: Matrix)
    requires IsMatrix(a, k, k) && m <= k
    ensures IsMatrix(l, m, m)
  {
    seq(m, i requires 0 <= i < m => a[i][..m])
  }

  ghost predicate LeadingMinorsNonsingular(a: Matrix, k: nat)
    requires IsMatrix(a, k, k)
  {
    forall m :: 0 < m <= k ==> !Singular(Leading(a, k, m), m)
  }

  /** The first `n` rows and columns are pivoted. */
  ghost function First(k: nat, n: nat): (p: seq<bool>)
    ensures |p| == k && forall i :: 0 <= i < k ==> p[i] == (i < n)
  {
    seq(k, i requires 0 <= i < k => i < n)
  }

  lemma {:induction false} DotPrefix(u: Vec, x: Vec, m: nat)
    requires |u| == |x| && m <= |u|
    requires forall i :: m <= i < |x| ==> x[i] == 0
    ensures Dot(u[..m], x[..m]) == Dot(u, x)
  {
    hide Add, Mul;
    if m == 0 {
      DotZeros(x, u);
    } else {
      DotPrefix(u[1..], x[1..], m - 1);
      assert u[..m][1..] == u[1..][..m - 1] && x[..m][1..] == x[1..][..m - 1];
    }
  }

  /** A zero on the diagonal, after pivots on all the diagonal elements before it, shows that the
      leading minor that ends there is singular. */
  lemma ZeroDiagonalIsSingularMinor(a: Matrix, s: Matrix, k: nat, n: nat)
    requires n < k && Exchanges(a, s, First(k, n), Identity(k), k) && s[n][n] == 0
    ensures Singular(Leading(a, k, n + 1), n + 1)
  {
    hide Maps;
    var pivoted, m := First(k, n), n + 1;
    var x := Mixed(pivoted, Column(s, k, n), Unit(k, n));
    var y := Mixed(pivoted, Zeros(k), Column(s, k, n));
    assert Permuted(y, Identity(k)) == y;
    assert Mixed(pivoted, y, x) == Unit(k, n);
    assert Mixed(pivoted, x, y) == Column(s, k, n);
    ColumnOfUnit(s, k, n);
    assert ExchangedMaps(s, pivoted, Identity(k), x, y);
    assert Maps(a, x, y);
    LeadingMaps(a, k, m, x, y);
    assert x[..m][n] == 1;
  }

  lemma LeadingMaps(a: Matrix, k: nat, m: nat, x: Vec, y: Vec)
    requires IsMatrix(a, k, k) && m <= k && |x| == k && |y| == k && Maps(a, x, y)
    requires forall i :: m <= i < k ==> x[i] == 0
    requires forall i :: 0 <= i < m ==> y[i] == 0
    ensures Maps(Leading(a, k, m), x[..m], Zeros(m))
  {
    hide Dot;
    forall i | 0 <= i < m ensures Dot(Leading(a, k, m)[i], x[..m]) == 0 {
      DotPrefix(a[i], x, m);
    }
  }
}
