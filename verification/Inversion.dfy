/** Inversion of a square matrix in place, in an array that holds it row after row. */
module Inversion {
  import opened Field
  import opened Tables
  import opened Kernels
  import opened LinearAlgebra
  import opened Exchange

  // ----- a matrix in an array

  /** Where row `r` begins. */
  function RowStart(k: nat, r: nat): nat { r * k }

  lemma RowBounds(k: nat, r: nat)
    requires r < k
    ensures RowStart(k, r) + k <= k * k
  {
    assert (r + 1) * k <= k * k;
  }

  lemma RowsApart(k: nat, q: nat, r: nat)
    requires q < r
    ensures RowStart(k, q) + k <= RowStart(k, r)
  {
    assert (q + 1) * k <= r * k;
  }

  ghost function RowAt(s: seq<gf>, k: nat, r: nat): (row: Vec)
    requires |s| == k * k && r < k
    ensures |row| == k
  {
    RowBounds(k, r);
    s[RowStart(k, r)..RowStart(k, r) + k]
  }

  /** The rows of the matrix that an array of size `k` * `k` holds. */
  ghost function Rows(s: seq<gf>, k: nat): (m: Matrix)
    requires |s| == k * k
    ensures IsMatrix(m, k, k)
    ensures forall r :: 0 <= r < k ==> m[r] == RowAt(s, k, r)
  {
    seq(k, r requires 0 <= r < k => RowAt(s, k, r))
  }

  lemma Entry(s: seq<gf>, k: nat, r: nat, j: nat)
    requires |s| == k * k && r < k && j < k
    ensures RowStart(k, r) + j < |s| && s[RowStart(k, r) + j] == Rows(s, k)[r][j]
  {
    hide RowStart, Rows;
    RowBounds(k, r);
  }

  /** Two arrays that agree outside of row `r` agree in every other row. */
  lemma OtherRowUnchanged(s: seq<gf>, t: seq<gf>, k: nat, r: nat, q: nat)
    requires |s| == k * k && |t| == k * k && r < k && q < k && q != r
    requires RowStart(k, r) + k <= k * k
    requires s[..RowStart(k, r)] == t[..RowStart(k, r)]
    requires s[RowStart(k, r) + k..] == t[RowStart(k, r) + k..]
    ensures RowAt(s, k, q) == RowAt(t, k, q)
  {
    hide RowStart;
    RowBounds(k, q);
    var from, end, at := RowStart(k, r), RowStart(k, r) + k, RowStart(k, q);
    if q < r {
      RowsApart(k, q, r);
    } else {
      RowsApart(k, r, q);
    }
    forall i | at <= i < at + k ensures s[i] == t[i] {
      if q < r {
        assert s[i] == s[..from][i] && t[i] == t[..from][i];
      } else {
        assert s[i] == s[end..][i - end] && t[i] == t[end..][i - end];
      }
    }
  }

  /** Changing one row of the array changes that row of the matrix. */
  lemma RowChanged(s: seq<gf>, t: seq<gf>, k: nat, r: nat)
    requires |s| == k * k && |t| == k * k && r < k
    requires RowStart(k, r) + k <= k * k
    requires s[..RowStart(k, r)] == t[..RowStart(k, r)]
    requires s[RowStart(k, r) + k..] == t[RowStart(k, r) + k..]
    ensures Rows(t, k) == Rows(s, k)[r := RowAt(t, k, r)]
  {
    hide RowStart, RowAt, Rows;
    forall q | 0 <= q < k && q != r ensures Rows(t, k)[q] == Rows(s, k)[q] {
      OtherRowUnchanged(s, t, k, r, q);
    }
  }

  /** One element of a row. */
  method SetEntry(a: array<gf>, k: nat, r: nat, j: nat, v: gf)
    requires a.Length == k * k && r < k && j < k
    modifies a
    ensures Rows(a[..], k) == old(Rows(a[..], k))[r := old(Rows(a[..], k))[r][j := v]]
  {
    hide Rows, RowStart;
    RowBounds(k, r);
    ghost var s := a[..];
    a[RowStart(k, r) + j] := v;
    RowChanged(s, a[..], k, r);
    assert RowAt(a[..], k, r) == RowAt(s, k, r)[j := v];
  }

  method GetEntry(a: array<gf>, k: nat, r: nat, j: nat) returns (v: gf)
    requires a.Length == k * k && r < k && j < k
    ensures v == Rows(a[..], k)[r][j]
  {
    hide Rows, RowStart;
    Entry(a[..], k, r, j);
    v := a[RowStart(k, r) + j];
  }

  // ----- the steps of the elimination

  /** The search for a pivot: the diagonal element if it will do, and otherwise the first nonzero
      element outside of the rows and columns used already. */
  method FindPivot(src: array<gf>, k: nat, ipiv: array<nat>, col: nat)
    returns (found: bool, irow: nat, icol: nat)
    requires src.Length == k * k && ipiv.Length == k && col < k
    requires forall i :: 0 <= i < k ==> ipiv[i] <= 1
    ensures found ==> irow < k && icol < k && ipiv[irow] == 0 && ipiv[icol] == 0
    ensures found ==> Rows(src[..], k)[irow][icol] != 0
    ensures ipiv[col] == 0 && Rows(src[..], k)[col][col] != 0 ==> found && irow == col == icol
    ensures !found ==> forall r, j :: 0 <= r < k && 0 <= j < k && ipiv[r] == 0 && ipiv[j] == 0 ==>
      Rows(src[..], k)[r][j] == 0
  {
    hide Rows;
    found, irow, icol := false, 0, 0;
    ghost var m := Rows(src[..], k);
    var diagonal := GetEntry(src, k, col, col);
    if ipiv[col] != 1 && diagonal != 0 {
      return true, col, col;
    }
    for row := 0 to k
      invariant forall r, j :: 0 <= r < row && 0 <= j < k && ipiv[r] == 0 && ipiv[j] == 0 ==> m[r][j] == 0
    {
      if ipiv[row] != 1 {
        for ix := 0 to k
          invariant forall j :: 0 <= j < ix && ipiv[j] == 0 ==> m[row][j] == 0
        {
          if ipiv[ix] == 0 {
            var v := GetEntry(src, k, row, ix);
            if v != 0 {
              return true, row, ix;
            }
          } else if ipiv[ix] > 1 {
            assert false;
          }
        }
      }
    }
  }

  method SwapRows(a: array<gf>, k: nat, p: nat, q: nat)
    requires a.Length == k * k && p < k && q < k && p != q
    modifies a
    ensures Rows(a[..], k) == Swapped(old(Rows(a[..], k)), p, q)
  {
    hide Rows;
    ghost var m := Rows(a[..], k);
    for ix := 0 to k
      invariant forall r :: 0 <= r < k && r != p && r != q ==> Rows(a[..], k)[r] == m[r]
      invariant forall j :: 0 <= j < k ==> Rows(a[..], k)[p][j] == if j < ix then m[q][j] else m[p][j]
      invariant forall j :: 0 <= j < k ==> Rows(a[..], k)[q][j] == if j < ix then m[p][j] else m[q][j]
    {
      var x := GetEntry(a, k, p, ix);
      var y := GetEntry(a, k, q, ix);
      SetEntry(a, k, p, ix, y);
      SetEntry(a, k, q, ix, x);
    }
    assert Rows(a[..], k)[p] == m[q] && Rows(a[..], k)[q] == m[p];
  }

  method SwapColumns(a: array<gf>, k: nat, p: nat, q: nat)
    requires a.Length == k * k && p < k && q < k
    modifies a
    ensures forall r :: 0 <= r < k ==> Rows(a[..], k)[r] == Swapped(old(Rows(a[..], k))[r], p, q)
  {
    hide Rows;
    ghost var m := Rows(a[..], k);
    for row := 0 to k
      invariant forall r :: 0 <= r < row ==> Rows(a[..], k)[r] == Swapped(m[r], p, q)
      invariant forall r :: row <= r < k ==> Rows(a[..], k)[r] == m[r]
    {
      var x := GetEntry(a, k, row, p);
      var y := GetEntry(a, k, row, q);
      SetEntry(a, k, row, p, y);
      SetEntry(a, k, row, q, x);
    }
  }

  /** Divides row `p` by its pivot and leaves the reciprocal of the pivot in its place.  Nothing to
      do when the pivot is 1. */
  method NormalizeRow(g: Galois, src: array<gf>, k: nat, p: nat)
    requires g.Ready() && Outside(g, src) && src.Length == k * k && p < k
    requires Rows(src[..], k)[p][p] != 0
    modifies src
    ensures g.Ready()
    ensures Rows(src[..], k) == old(Rows(src[..], k))[p := PivotRow(old(Rows(src[..], k))[p], p)]
  {
    hide Mul, Inv, Galois.Ready, Rows;
    ghost var m := Rows(src[..], k);
    ghost var row := m[p];
    var c := GetEntry(src, k, p, p);
    if c != 1 {
      c := g.Inverse(c);
      SetEntry(src, k, p, p, 1);
      for ix := 0 to k
        invariant g.Ready() && |Rows(src[..], k)[p]| == k
        invariant forall r :: 0 <= r < k && r != p ==> Rows(src[..], k)[r] == m[r]
        invariant forall j :: 0 <= j < k ==>
          Rows(src[..], k)[p][j] == if j < ix then PivotRow(row, p)[j] else row[p := 1][j]
      {
        var v := GetEntry(src, k, p, ix);
        v := g.Product(c, v);
        SetEntry(src, k, p, ix, v);
      }
      assert Rows(src[..], k)[p] == PivotRow(row, p);
    } else {
      MulByOne(1);
      InvUnique(1, 1);
      forall j | 0 <= j < k ensures PivotRow(row, p)[j] == row[j] {
        MulByOneLeft(row[j]);
      }
      assert PivotRow(row, p) == row;
    }
  }

  /** Whether row `p` is the unit vector in `idRow`. */
  method SameAsUnit(src: array<gf>, k: nat, p: nat, idRow: array<gf>) returns (same: bool)
    requires src.Length == k * k && idRow.Length == k && p < k
    ensures same <==> Rows(src[..], k)[p] == idRow[..]
  {
    for ix := 0 to k
      invariant forall j :: 0 <= j < ix ==> Rows(src[..], k)[p][j] == idRow[j]
    {
      var v := GetEntry(src, k, p, ix);
      if v != idRow[ix] {
        assert idRow[..][ix] != Rows(src[..], k)[p][ix];
        return false;
      }
    }
    assert idRow[..] == Rows(src[..], k)[p];
    return true;
  }

  /** Row `r` plus `c` times row `p`. */
  method AddMulRow(g: Galois, src: array<gf>, k: nat, r: nat, p: nat, c: gf)
    requires g.Ready() && Outside(g, src) && src.Length == k * k && p < k && r < k && p != r
    modifies src
    ensures g.Ready()
    ensures forall q :: 0 <= q < k && q != r ==> Rows(src[..], k)[q] == old(Rows(src[..], k))[q]
    ensures forall j :: 0 <= j < k ==>
      Rows(src[..], k)[r][j] == Add(old(Rows(src[..], k))[r][j], Mul(c, old(Rows(src[..], k))[p][j]))
  {
    hide Add, Mul, Galois.Ready, Rows, RowStart, AddScaled;
    RowBounds(k, r);
    RowBounds(k, p);
    if r < p {
      RowsApart(k, r, p);
    } else {
      RowsApart(k, p, r);
    }
    ghost var s := src[..];
    ghost var v := src[RowStart(k, p)..RowStart(k, p) + k];
    AddMulBlock(g, src, RowStart(k, r), src, RowStart(k, p), c, k);
    AddScaledIsRow(s, k, r, c, v);
    assert v == RowAt(s, k, p);
  }

  /** What the kernel does to a row, in terms of the matrix. */
  lemma AddScaledIsRow(s: seq<gf>, k: nat, r: nat, c: gf, v: Vec)
    requires |s| == k * k && r < k && |v| == k && RowStart(k, r) + k <= k * k
    ensures forall q :: 0 <= q < k && q != r ==> Rows(AddScaled(s, RowStart(k, r), c, v), k)[q] == Rows(s, k)[q]
    ensures forall j :: 0 <= j < k ==>
      Rows(AddScaled(s, RowStart(k, r), c, v), k)[r][j] == Add(Rows(s, k)[r][j], Mul(c, v[j]))
  {
    hide Add, Mul, Rows, RowStart, AddScaled;
    var from, t := RowStart(k, r), AddScaled(s, RowStart(k, r), c, v);
    assert s[..from] == t[..from] && s[from + k..] == t[from + k..];
    RowChanged(s, t, k, r);
    forall j | 0 <= j < k ensures RowAt(t, k, r)[j] == Add(RowAt(s, k, r)[j], Mul(c, v[j])) {
      assert t[from + j] == Add(s[from + j], Mul(c, v[j]));
    }
  }

  lemma OtherRowOfUnit(row: Vec, p: nat)
    requires p < |row|
    ensures OtherRow(row, Unit(|row|, p), p) == row
  {
    hide Add, Mul;
    forall j | 0 <= j < |row| ensures OtherRow(row, Unit(|row|, p), p)[j] == row[j] {
      MulZero(row[p]);
      MulByOne(row[p]);
      AddZero(row[j]);
    }
  }

  /** Removes a multiple of row `p` from row `r`. */
  method EliminateRow(g: Galois, src: array<gf>, k: nat, r: nat, p: nat)
    requires g.Ready() && Outside(g, src) && src.Length == k * k && p < k && r < k && p != r
    modifies src
    ensures g.Ready()
    ensures forall q :: 0 <= q < k && q != r ==> Rows(src[..], k)[q] == old(Rows(src[..], k))[q]
    ensures Rows(src[..], k)[r] == OtherRow(old(Rows(src[..], k))[r], old(Rows(src[..], k))[p], p)
  {
    hide Add, Mul, Galois.Ready, Rows, OtherRow;
    ghost var m := Rows(src[..], k);
    var c := GetEntry(src, k, r, p);
    SetEntry(src, k, r, p, 0);
    AddMulRow(g, src, k, r, p, c);
    assert Rows(src[..], k)[r] == OtherRow(m[r], m[p], p);
  }

  /** Removes multiples of row `p` from all other rows. */
  method EliminateColumn(g: Galois, src: array<gf>, k: nat, p: nat)
    requires g.Ready() && Outside(g, src) && src.Length == k * k && p < k
    modifies src
    ensures g.Ready()
    ensures Rows(src[..], k)[p] == old(Rows(src[..], k))[p]
    ensures forall i :: 0 <= i < k && i != p ==>
      Rows(src[..], k)[i] == OtherRow(old(Rows(src[..], k))[i], old(Rows(src[..], k))[p], p)
  {
    hide Galois.Ready, Rows, OtherRow;
    ghost var m := Rows(src[..], k);
    for ix := 0 to k
      invariant g.Ready() && Rows(src[..], k)[p] == m[p]
      invariant forall i :: 0 <= i < ix && i != p ==> Rows(src[..], k)[i] == OtherRow(m[i], m[p], p)
      invariant forall i :: ix <= i < k ==> Rows(src[..], k)[i] == m[i]
    {
      if ix != p {
        EliminateRow(g, src, k, ix, p);
      }
    }
  }

  /** Removes multiples of row `p` from all other rows, unless it is the unit vector in `idRow`. */
  method EliminateUnlessUnit(g: Galois, src: array<gf>, k: nat, p: nat, idRow: array<gf>)
    requires g.Ready() && Outside(g, src) && src != idRow
    requires src.Length == k * k && idRow.Length == k && p < k && idRow[..] == Unit(k, p)
    modifies src
    ensures g.Ready()
    ensures Rows(src[..], k)[p] == old(Rows(src[..], k))[p]
    ensures forall i :: 0 <= i < k && i != p ==>
      Rows(src[..], k)[i] == OtherRow(old(Rows(src[..], k))[i], old(Rows(src[..], k))[p], p)
  {
    hide Galois.Ready, Rows, OtherRow, Unit;
    var same := SameAsUnit(src, k, p, idRow);
    if !same {
      EliminateColumn(g, src, k, p);
    } else {
      ghost var m := Rows(src[..], k);
      forall i | 0 <= i < k && i != p ensures OtherRow(m[i], m[p], p) == m[i] {
        OtherRowOfUnit(m[i], p);
      }
    }
  }

  /** The whole pivot step.  `idRow` is 0 before and after. */
  method Pivot(g: Galois, src: array<gf>, k: nat, p: nat, idRow: array<gf>)
    requires g.Ready() && Outside(g, src) && Outside(g, idRow) && src != idRow
    requires src.Length == k * k && idRow.Length == k && p < k && idRow[..] == Zeros(k)
    requires Rows(src[..], k)[p][p] != 0
    modifies src, idRow
    ensures g.Ready() && idRow[..] == Zeros(k)
    ensures Rows(src[..], k) == PivotStep(old(Rows(src[..], k)), k, p)
  {
    hide Galois.Ready, Rows, PivotStep, PivotRow, OtherRow, Zeros;
    ghost var m := Rows(src[..], k);
    NormalizeRow(g, src, k, p);
    idRow[p] := 1;
    EliminateUnlessUnit(g, src, k, p, idRow);
    idRow[p] := 0;
    assert idRow[..] == Zeros(k);
    PivotStepIs(m, Rows(src[..], k), k, p);
  }

  lemma PivotStepIs(m: Matrix, t: Matrix, k: nat, p: nat)
    requires IsMatrix(m, k, k) && IsMatrix(t, k, k) && p < k
    requires t[p] == PivotRow(m[p], p)
    requires forall i :: 0 <= i < k && i != p ==> t[i] == OtherRow(m[i], PivotRow(m[p], p), p)
    ensures t == PivotStep(m, k, p)
  {
    hide PivotRow, OtherRow;
  }

  // ----- bookkeeping of the pivots

  ghost function Count(p: seq<bool>): nat {
    if |p| == 0 then 0 else (if p[0] then 1 else 0) + Count(p[1..])
  }

  lemma {:induction false} CountBound(p: seq<bool>) returns (j: nat)
    requires Count(p) < |p|
    ensures j < |p| && !p[j]
  {
    if !p[0] {
      j := 0;
    } else {
      j := CountBound(p[1..]);
      j := j + 1;
    }
  }

  lemma {:induction false} CountSet(p: seq<bool>, j: nat)
    requires j < |p| && !p[j]
    ensures Count(p[j := true]) == Count(p) + 1
  {
    if j == 0 {
      assert p[0 := true][1..] == p[1..];
    } else {
      assert p[j := true][1..] == p[1..][j - 1 := true];
      CountSet(p[1..], j - 1);
    }
  }

  lemma {:induction false} CountFull(p: seq<bool>)
    ensures Count(p) <= |p|
    ensures Count(p) == |p| ==> p == All(|p|)
  {
    if |p| > 0 {
      CountFull(p[1..]);
      if Count(p) == |p| {
        assert p == [p[0]] + p[1..];
      }
    }
  }

  lemma {:induction false} CountNone(k: nat)
    ensures Count(seq(k, _ => false)) == 0
  {
    if k > 0 {
      assert seq(k, _ => false)[1..] == seq(k - 1, _ => false);
      CountNone(k - 1);
    }
  }

  /** The order of the results after exchanging rows `r[i]` and `c[i]` for each i in turn. */
  ghost function OrderAfter(r: seq<nat>, c: seq<nat>, k: nat): (order: seq<nat>)
    requires |r| == |c|
    requires forall i :: 0 <= i < |r| ==> r[i] < k && c[i] < k
    ensures IsOrder(order, k)
  {
    if |r| == 0 then Identity(k)
    else
      var n := |r| - 1;
      Swapped(OrderAfter(r[..n], c[..n], k), r[n], c[n])
  }

  /** What becomes of `a` when rows `r[i]` and `c[i]` are exchanged and then row and column `c[i]` are
      the pivot, for each i in turn. */
  ghost function Eliminated(a: Matrix, r: seq<nat>, c: seq<nat>, k: nat): (s: Matrix)
    requires IsMatrix(a, k, k) && |r| == |c|
    requires forall i :: 0 <= i < |r| ==> r[i] < k && c[i] < k
    ensures IsMatrix(s, k, k)
  {
    if |r| == 0 then a
    else
      var n := |r| - 1;
      PivotStep(Swapped(Eliminated(a, r[..n], c[..n], k), r[n], c[n]), k, c[n])
  }

  /** Element `r[i]`, `c[i]` is the pivot of round i: it is nonzero, in a row and a column without a
      pivot, and it is on the diagonal in column i if that is possible. */
  ghost predicate ArePivots(a: Matrix, r: seq<nat>, c: seq<nat>, k: nat)
    requires IsMatrix(a, k, k)
  {
    && |r| == |c| && (forall i :: 0 <= i < |r| ==> r[i] < k && c[i] < k)
    && forall i :: 0 <= i < |r| ==> IsPivot(Eliminated(a, r[..i], c[..i], k), c[..i], i, r[i], c[i], k)
  }

  ghost predicate IsPivot(s: Matrix, before: seq<nat>, i: nat, irow: nat, icol: nat, k: nat)
    requires IsMatrix(s, k, k) && irow < k && icol < k
  {
    && irow !in before && icol !in before && s[irow][icol] != 0
    && (i < k && i !in before && s[i][i] != 0 ==> irow == icol == i)
  }

  lemma EliminatedAppend(a: Matrix, r: seq<nat>, c: seq<nat>, k: nat, irow: nat, icol: nat)
    requires IsMatrix(a, k, k) && |r| == |c| && irow < k && icol < k
    requires forall i :: 0 <= i < |r| ==> r[i] < k && c[i] < k
    ensures Eliminated(a, r + [irow], c + [icol], k) ==
            PivotStep(Swapped(Eliminated(a, r, c, k), irow, icol), k, icol)
  {
    hide PivotStep, Swapped;
    assert (r + [irow])[..|r|] == r && (c + [icol])[..|c|] == c;
  }

  lemma PivotsAppend(a: Matrix, s: Matrix, r: seq<nat>, c: seq<nat>, k: nat, irow: nat, icol: nat)
    requires IsMatrix(a, k, k) && IsMatrix(s, k, k) && irow < k && icol < k
    requires ArePivots(a, r, c, k) && s == Eliminated(a, r, c, k) && IsPivot(s, c, |r|, irow, icol, k)
    ensures ArePivots(a, r + [irow], c + [icol], k)
  {
    hide PivotStep, Swapped, IsPivot, Eliminated;
    var r2, c2 := r + [irow], c + [icol];
    assert r2[..|r|] == r && c2[..|r|] == c;
    forall i | 0 <= i < |r2| ensures IsPivot(Eliminated(a, r2[..i], c2[..i], k), c2[..i], i, r2[i], c2[i], k) {
      if i < |r| {
        assert r2[..i] == r[..i] && c2[..i] == c[..i];
      }
    }
  }

  /** The state of the main loop before column `col`. */
  ghost predicate Progress(a: Matrix, s: Matrix, k: nat, col: nat, ipiv: seq<nat>, pivoted: seq<bool>,
                           order: seq<nat>, indxr: seq<nat>, indxc: seq<nat>)
  {
    && Exchanges(a, s, pivoted, order, k)
    && col <= k && |ipiv| == k && |indxr| == |indxc| == col
    && (forall i :: 0 <= i < k ==> ipiv[i] == if pivoted[i] then 1 else 0)
    && (forall i :: 0 <= i < col ==> indxr[i] < k && indxc[i] < k)
    && Count(pivoted) == col
    && order == OrderAfter(indxr, indxc, k)
    && ArePivots(a, indxr, indxc, k) && s == Eliminated(a, indxr, indxc, k)
    && (forall i :: 0 <= i < k ==> (pivoted[i] <==> i in indxc))
    && (LeadingMinorsNonsingular(a, k) ==>
      pivoted == First(k, col) && order == Identity(k) && (forall i :: 0 <= i < col ==> indxr[i] == indxc[i] == i))
  }

  lemma ProgressStart(a: Matrix, k: nat, ipiv: seq<nat>)
    requires IsMatrix(a, k, k) && ipiv == seq(k, _ => 0)
    ensures Progress(a, a, k, 0, ipiv, seq(k, _ => false), Identity(k), [], [])
  {
    hide Exchanges;
    ExchangeStart(a, k);
    CountNone(k);
  }

  /** Without a pivot the matrix is singular, and so is one of its leading minors. */
  lemma ProgressStuck(a: Matrix, s: Matrix, k: nat, col: nat, ipiv: seq<nat>, pivoted: seq<bool>,
                      order: seq<nat>, indxr: seq<nat>, indxc: seq<nat>)
    requires Progress(a, s, k, col, ipiv, pivoted, order, indxr, indxc) && col < k
    requires forall r, j :: 0 <= r < k && 0 <= j < k && ipiv[r] == 0 && ipiv[j] == 0 ==> s[r][j] == 0
    ensures Singular(a, k)
    ensures !LeadingMinorsNonsingular(a, k)
  {
    hide Singular;
    var j := CountBound(pivoted);
    NoPivotIsSingular(a, s, pivoted, order, k, j);
    LeadingWhole(a, k);
  }

  /** One round of the main loop: the rows of the pivot are exchanged, and then it is used. */
  lemma ProgressStep(a: Matrix, s: Matrix, swapped: Matrix, k: nat, col: nat, ipiv: seq<nat>, pivoted: seq<bool>,
                     order: seq<nat>, indxr: seq<nat>, indxc: seq<nat>, irow: nat, icol: nat)
    requires Progress(a, s, k, col, ipiv, pivoted, order, indxr, indxc) && col < k
    requires irow < k && icol < k && ipiv[irow] == 0 && ipiv[icol] == 0 && s[irow][icol] != 0
    requires ipiv[col] == 0 && s[col][col] != 0 ==> irow == col == icol
    requires swapped == if irow == icol then s else Swapped(s, irow, icol)
    ensures IsMatrix(swapped, k, k) && swapped[icol][icol] != 0
    ensures Progress(a, PivotStep(swapped, k, icol), k, col + 1, ipiv[icol := 1], pivoted[icol := true],
                     Swapped(order, irow, icol), indxr + [irow], indxc + [icol])
  {
    hide Exchanges, PivotStep, Singular, OrderAfter, Maps, LeadingMinorsNonsingular, ArePivots, Eliminated;
    ExchangesShape(a, s, pivoted, order, k);
    assert swapped == Swapped(s, irow, icol);
    ExchangeSwapRows(a, s, pivoted, order, k, irow, icol);
    ExchangePivot(a, swapped, pivoted, Swapped(order, irow, icol), k, icol);
    CountSet(pivoted, icol);
    OrderAfterAppend(indxr, indxc, k, irow, icol);
    PivotsAppend(a, s, indxr, indxc, k, irow, icol);
    EliminatedAppend(a, indxr, indxc, k, irow, icol);
    if LeadingMinorsNonsingular(a, k) {
      DiagonalIsPivot(a, s, k, col);
      FirstNext(k, col);
    }
  }

  lemma OrderAfterAppend(r: seq<nat>, c: seq<nat>, k: nat, irow: nat, icol: nat)
    requires |r| == |c| && irow < k && icol < k
    requires forall i :: 0 <= i < |r| ==> r[i] < k && c[i] < k
    ensures OrderAfter(r + [irow], c + [icol], k) == Swapped(OrderAfter(r, c, k), irow, icol)
  {
    assert (r + [irow])[..|r|] == r && (c + [icol])[..|c|] == c;
  }

  lemma FirstNext(k: nat, n: nat)
    requires n < k
    ensures First(k, n)[n := true] == First(k, n + 1)
    ensures Swapped(Identity(k), n, n) == Identity(k)
  {}

  lemma LeadingWhole(a: Matrix, k: nat)
    requires IsMatrix(a, k, k)
    ensures Leading(a, k, k) == a
  {
    forall i | 0 <= i < k ensures Leading(a, k, k)[i] == a[i] {
      assert a[i][..k] == a[i];
    }
  }

  /** If no leading minor is singular, the next diagonal element is a pivot. */
  lemma DiagonalIsPivot(a: Matrix, s: Matrix, k: nat, n: nat)
    requires n < k && Exchanges(a, s, First(k, n), Identity(k), k)
    requires LeadingMinorsNonsingular(a, k)
    ensures s[n][n] != 0
  {
    hide Maps;
    if s[n][n] == 0 {
      ZeroDiagonalIsSingularMinor(a, s, k, n);
      assert false;
    }
  }

  lemma ExchangesShape(a: Matrix, s: Matrix, pivoted: seq<bool>, order: seq<nat>, k: nat)
    requires Exchanges(a, s, pivoted, order, k)
    ensures IsMatrix(a, k, k) && IsMatrix(s, k, k) && |pivoted| == k && IsOrder(order, k)
  {}

  lemma ProgressFacts(a: Matrix, s: Matrix, k: nat, col: nat, ipiv: seq<nat>, pivoted: seq<bool>,
                      order: seq<nat>, indxr: seq<nat>, indxc: seq<nat>)
    requires Progress(a, s, k, col, ipiv, pivoted, order, indxr, indxc)
    ensures col <= k && |ipiv| == k && |pivoted| == k && IsOrder(order, k) && IsMatrix(a, k, k)
    ensures forall i :: 0 <= i < k ==> ipiv[i] <= 1
  {}

  /** One round of the main loop, for column `col`: a pivot is found and used, or there is none. */
  method Round(g: Galois, src: array<gf>, k: nat, col: nat, ipiv: array<nat>, indxr: array<nat>, indxc: array<nat>,
               idRow: array<gf>, ghost a: Matrix, ghost pivoted: seq<bool>, ghost order: seq<nat>)
    returns (found: bool, ghost pivoted': seq<bool>, ghost order': seq<nat>)
    requires g.Ready() && Outside(g, src) && Outside(g, idRow) && src != idRow
    requires src.Length == k * k && ipiv.Length == k && indxr.Length == k && indxc.Length == k && idRow.Length == k
    requires ipiv != indxr && ipiv != indxc && indxr != indxc && col < k && idRow[..] == Zeros(k)
    requires {ipiv as object, indxr, indxc} !! {g as object, g.inverse, g.mulTable, src, idRow}
    requires Progress(a, Rows(src[..], k), k, col, ipiv[..], pivoted, order, indxr[..col], indxc[..col])
    modifies src, ipiv, indxr, indxc, idRow
    ensures g.Ready() && idRow[..] == Zeros(k)
    ensures found ==>
      Progress(a, Rows(src[..], k), k, col + 1, ipiv[..], pivoted', order', indxr[..col + 1], indxc[..col + 1])
    ensures !found ==> IsMatrix(a, k, k) && Singular(a, k) && !LeadingMinorsNonsingular(a, k)
  {
    hide Galois.Ready, Rows, Progress, PivotStep, Singular, LeadingMinorsNonsingular, Zeros, Swapped;
    ghost var s := Rows(src[..], k);
    ghost var flags, r, c := ipiv[..], indxr[..col], indxc[..col];
    ProgressFacts(a, s, k, col, flags, pivoted, order, r, c);
    assert forall i :: 0 <= i < k ==> ipiv[i] == flags[i];
    pivoted', order' := pivoted, order;
    var irow, icol;
    found, irow, icol := FindPivot(src, k, ipiv, col);
    if !found {
      ProgressStuck(a, s, k, col, flags, pivoted, order, r, c);
      return;
    }
    ipiv[icol] := ipiv[icol] + 1;
    if irow != icol {
      SwapRows(src, k, irow, icol);
    }
    indxr[col] := irow;
    indxc[col] := icol;
    assert idRow[..] == Zeros(k);
    ghost var swapped := Rows(src[..], k);
    ProgressStep(a, s, swapped, k, col, flags, pivoted, order, r, c, irow, icol);
    Pivot(g, src, k, icol, idRow);
    pivoted', order' := pivoted[icol := true], Swapped(order, irow, icol);
    assert ipiv[..] == flags[icol := 1];
    assert indxr[..col + 1] == r + [irow] && indxc[..col + 1] == c + [icol];
  }

  lemma SwappedSame<T>(s: seq<T>, p: nat)
    requires p < |s|
    ensures Swapped(s, p, p) == s
  {}

  /** Undoes one row exchange on the columns. */
  method UnscrambleOne(src: array<gf>, k: nat, p: nat, q: nat, ghost a: Matrix, ghost order: seq<nat>)
    requires src.Length == k * k && p < k && q < k && IsOrder(order, k)
    requires Exchanges(a, Rows(src[..], k), All(k), Swapped(order, p, q), k)
    modifies src
    ensures Exchanges(a, Rows(src[..], k), All(k), order, k)
  {
    hide Rows, Exchanges, All, Swapped;
    ghost var s := Rows(src[..], k);
    if p != q {
      SwapColumns(src, k, p, q);
    } else {
      forall i | 0 <= i < k ensures s[i] == Swapped(s[i], p, q) {
        SwappedSame(s[i], p);
      }
    }
    ExchangeSwapColumns(a, s, Rows(src[..], k), order, k, p, q);
  }

  /** Undoes the row exchanges, last one first, on the columns. */
  method UnscrambleColumns(src: array<gf>, k: nat, indxr: array<nat>, indxc: array<nat>, ghost a: Matrix)
    requires src.Length == k * k && indxr.Length == k && indxc.Length == k && src as object !in {indxr as object, indxc}
    requires forall i :: 0 <= i < k ==> indxr[i] < k && indxc[i] < k
    requires Exchanges(a, Rows(src[..], k), All(k), OrderAfter(indxr[..], indxc[..], k), k)
    modifies src
    ensures Exchanges(a, Rows(src[..], k), All(k), Identity(k), k)
  {
    hide Rows, Exchanges, OrderAfter, All, Identity;
    var col := k;
    ghost var r, c := indxr[..], indxc[..];
    assert r[..k] == r && c[..k] == c;
    while col > 0
      invariant 0 <= col <= k && indxr[..] == r && indxc[..] == c
      invariant Exchanges(a, Rows(src[..], k), All(k), OrderAfter(r[..col], c[..col], k), k)
    {
      col := col - 1;
      assert r[..col + 1] == r[..col] + [r[col]] && c[..col + 1] == c[..col] + [c[col]];
      OrderAfterAppend(r[..col], c[..col], k, r[col], c[col]);
      UnscrambleOne(src, k, indxr[col], indxc[col], a, OrderAfter(r[..col], c[..col], k));
    }
    assert r[..0] == [] && c[..0] == [];
    OrderAfterNothing(k);
  }

  lemma OrderAfterNothing(k: nat)
    ensures OrderAfter([], [], k) == Identity(k)
  {}

  lemma ProgressEnd(a: Matrix, s: Matrix, k: nat, ipiv: seq<nat>, pivoted: seq<bool>,
                    order: seq<nat>, indxr: seq<nat>, indxc: seq<nat>)
    requires Progress(a, s, k, k, ipiv, pivoted, order, indxr, indxc)
    ensures |indxr| == |indxc| == k && forall i :: 0 <= i < k ==> indxr[i] < k && indxc[i] < k
    ensures Exchanges(a, s, All(k), OrderAfter(indxr, indxc, k), k)
    ensures IsMatrix(a, k, k)
    ensures ArePivots(a, indxr, indxc, k)
    ensures LeadingMinorsNonsingular(a, k) ==> forall i :: 0 <= i < k ==> indxr[i] == indxc[i] == i
  {
    hide Exchanges, LeadingMinorsNonsingular, OrderAfter, ArePivots, Eliminated;
    ExchangesShape(a, s, pivoted, order, k);
    CountFull(pivoted);
  }

  /** The inverse of `src`, in its place.  Reports an error exactly for a singular matrix; what the
      array then holds is of no use.  `rows` and `columns` are where the pivots were found, in the order
      of their use. */
  method InvertMat(g: Galois, src: array<gf>, k: nat)
    returns (error: bool, ghost rows: seq<nat>, ghost columns: seq<nat>)
    requires g.Ready() && Outside(g, src) && src.Length == k * k
    modifies src
    ensures g.Ready()
    ensures error <==> Singular(old(Rows(src[..], k)), k)
    ensures !error ==> IsInverse(old(Rows(src[..], k)), Rows(src[..], k), k)
    ensures !error ==> |rows| == |columns| == k && ArePivots(old(Rows(src[..], k)), rows, columns, k)
    ensures LeadingMinorsNonsingular(old(Rows(src[..], k)), k) ==>
      !error && forall i :: 0 <= i < k ==> rows[i] == columns[i] == i
  {
    hide Galois.Ready, Rows, Progress, Singular, LeadingMinorsNonsingular, IsInverse, Exchanges, OrderAfter, ArePivots;
    ghost var a := Rows(src[..], k);
    var indxc := new nat[k];
    var indxr := new nat[k];
    var ipiv := new nat[k](_ => 0);
    var idRow := new gf[k](_ => 0);
    ghost var pivoted, order := seq(k, _ => false), Identity(k);
    assert ipiv[..] == seq(k, _ => 0) && idRow[..] == Zeros(k);
    assert indxr[..0] == [] && indxc[..0] == [];
    ProgressStart(a, k, ipiv[..]);
    for col := 0 to k
      invariant g.Ready() && idRow[..] == Zeros(k)
      invariant Progress(a, Rows(src[..], k), k, col, ipiv[..], pivoted, order, indxr[..col], indxc[..col])
    {
      var found;
      found, pivoted, order := Round(g, src, k, col, ipiv, indxr, indxc, idRow, a, pivoted, order);
      if !found {
        return true, [], [];
      }
    }
    rows, columns := indxr[..k], indxc[..k];
    assert rows == indxr[..] && columns == indxc[..];
    ProgressEnd(a, Rows(src[..], k), k, ipiv[..], pivoted, order, rows, columns);
    assert forall i :: 0 <= i < k ==> indxr[i] == rows[i] && indxc[i] == columns[i];
    UnscrambleColumns(src, k, indxr, indxc, a);
    ExchangeEnd(a, Rows(src[..], k), k);
    return false, rows, columns;
  }
}
