/** The erasure code as linear algebra: FEC block `r` is the sum over the data blocks `c` of
    `Coefficient(r, c)` times the block, byte by byte. */
module Erasure {
  import opened Field
  import opened LinearAlgebra
  import opened Exchange
  import opened Cauchy

  /** At most this many data blocks, and at most this many FEC blocks. */
  const MAX_BLOCKS := 128

  ghost function Coefficient(r: nat, c: nat): gf
    requires r < MAX_BLOCKS && c < MAX_BLOCKS
  {
    Inv(Add(Byte(128 + r), Byte(c)))
  }

  /** The coefficients of FEC block `r` for `n` data blocks. */
  ghost function CodeRow(r: nat, n: nat): (row: Vec)
    requires r < MAX_BLOCKS && n <= MAX_BLOCKS
    ensures |row| == n && forall c :: 0 <= c < n ==> row[c] == Coefficient(r, c)
  {
    seq(n, c requires 0 <= c < n => Coefficient(r, c))
  }

  /** Blocks of `size` bytes each. */
  ghost predicate AreBlocks(b: seq<Vec>, size: nat) {
    forall i :: 0 <= i < |b| ==> |b[i]| == size
  }

  /** The sum of the blocks `d` with coefficients `w`. */
  ghost function Combine(w: Vec, d: seq<Vec>, size: nat): (block: Vec)
    requires |w| == |d| && AreBlocks(d, size)
    ensures |block| == size && forall t :: 0 <= t < size ==> block[t] == Dot(w, Column(d, size, t))
  {
    seq(size, t requires 0 <= t < size => Dot(w, Column(d, size, t)))
  }

  /** FEC block `r` of the data blocks `d`. */
  ghost function Parity(r: nat, d: seq<Vec>, size: nat): (block: Vec)
    requires r < MAX_BLOCKS && |d| <= MAX_BLOCKS && AreBlocks(d, size)
    ensures |block| == size
  {
    Combine(CodeRow(r, |d|), d, size)
  }

  // ----- which blocks are lost

  ghost predicate Ascending(s: seq<nat>) {
    forall i, j :: 0 <= i < j < |s| ==> s[i] < s[j]
  }

  ghost predicate AllBelow(s: seq<nat>, n: nat) {
    forall i :: 0 <= i < |s| ==> s[i] < n
  }

  /** What a decoder is given: `n` data blocks, of which those in `erased` are lost, and as many FEC
      blocks with numbers `nos`. */
  ghost predicate Decodable(n: nat, nos: seq<nat>, erased: seq<nat>) {
    && n <= 128 && |nos| == |erased|
    && Distinct(nos) && AllBelow(nos, 128)
    && Ascending(erased) && AllBelow(erased, n)
  }

  /** `row` with the lost columns cleared. */
  ghost function Known(row: Vec, erased: seq<nat>): (known: Vec)
    ensures |known| == |row|
    ensures forall c :: 0 <= c < |row| ==> known[c] == if c in erased then 0 else row[c]
  {
    seq(|row|, c requires 0 <= c < |row| => if c in erased then 0 else row[c])
  }

  ghost function Pick(v: Vec, at: seq<nat>): (w: Vec)
    requires AllBelow(at, |v|)
    ensures |w| == |at| && forall i :: 0 <= i < |at| ==> w[i] == v[at[i]]
  {
    seq(|at|, i requires 0 <= i < |at| => v[at[i]])
  }

  lemma {:induction false} DotAppend(u: Vec, v: Vec, a: gf, b: gf)
    requires |u| == |v|
    ensures Dot(u + [a], v + [b]) == Add(Dot(u, v), Mul(a, b))
  {
    hide Add, Mul;
    if |u| == 0 {
      AddZero(Mul(a, b));
      assert ([] + [a])[1..] == [] && ([] + [b])[1..] == [];
    } else {
      DotAppend(u[1..], v[1..], a, b);
      assert (u + [a])[1..] == u[1..] + [a] && (v + [b])[1..] == v[1..] + [b];
      AddAssoc(Mul(u[0], v[0]), Dot(u[1..], v[1..]), Mul(a, b));
    }
  }

  /** A sum over all columns is a sum over the lost ones and a sum over the rest. */
  lemma {:induction false} DotErased(row: Vec, v: Vec, erased: seq<nat>)
    requires |row| == |v| && Ascending(erased) && AllBelow(erased, |v|)
    ensures Dot(row, v) == Add(Dot(Pick(row, erased), Pick(v, erased)), Dot(Known(row, erased), v))
  {
    hide Add, Mul, Dot;
    if |erased| == 0 {
      assert Known(row, erased) == row;
      DotZeros([], []);
      AddZero(Dot(row, v));
    } else {
      var n := |erased| - 1;
      var before, e := erased[..n], erased[n];
      DotErased(row, v, before);
      assert erased == before + [e];
      DotAppend(Pick(row, before), Pick(v, before), row[e], v[e]);
      assert Pick(row, erased) == Pick(row, before) + [row[e]];
      assert Pick(v, erased) == Pick(v, before) + [v[e]];
      DotSplit(Known(row, before), v, e);
      assert Known(row, before)[e := 0] == Known(row, erased);
      AddAssoc(Dot(Pick(row, before), Pick(v, before)), Mul(row[e], v[e]), Dot(Known(row, erased), v));
    }
  }

  /** The known part of a sum does not depend on the lost blocks. */
  lemma {:induction false} DotAgree(u: Vec, v: Vec, w: Vec)
    requires |u| == |v| == |w|
    requires forall c :: 0 <= c < |u| ==> u[c] == 0 || v[c] == w[c]
    ensures Dot(u, v) == Dot(u, w)
  {
    hide Add, Mul;
    if |u| > 0 {
      if u[0] == 0 {
        MulZero(v[0]);
        MulZero(w[0]);
      }
      DotAgree(u[1..], v[1..], w[1..]);
    }
  }

  // ----- the matrix of a decoding

  ghost function RowPoints(nos: seq<nat>): (p: seq<gf>)
    requires AllBelow(nos, MAX_BLOCKS)
    ensures |p| == |nos| && forall i :: 0 <= i < |nos| ==> p[i] == Byte(128 + nos[i])
  {
    seq(|nos|, i requires 0 <= i < |nos| => Byte(128 + nos[i]))
  }

  ghost function ColumnPoints(erased: seq<nat>): (q: seq<gf>)
    requires AllBelow(erased, MAX_BLOCKS)
    ensures |q| == |erased| && forall i :: 0 <= i < |erased| ==> q[i] == Byte(erased[i])
  {
    seq(|erased|, i requires 0 <= i < |erased| => Byte(erased[i]))
  }

  /** The coefficients of the lost blocks in the FEC blocks at hand. */
  ghost function DecodingMatrix(nos: seq<nat>, erased: seq<nat>): (m: Matrix)
    requires AllBelow(nos, MAX_BLOCKS) && AllBelow(erased, MAX_BLOCKS)
    ensures IsMatrix(m, |nos|, |erased|)
    ensures forall i, j :: 0 <= i < |nos| && 0 <= j < |erased| ==> m[i][j] == Coefficient(nos[i], erased[j])
  {
    CauchyMatrix(RowPoints(nos), ColumnPoints(erased))
  }

  lemma DecodingPoints(n: nat, nos: seq<nat>, erased: seq<nat>)
    requires Decodable(n, nos, erased)
    ensures Distinct(RowPoints(nos)) && Distinct(ColumnPoints(erased))
    ensures Disjoint(RowPoints(nos), ColumnPoints(erased))
  {
    hide Byte;
    var p, q := RowPoints(nos), ColumnPoints(erased);
    forall i | 0 <= i < |nos| ensures Index(p[i]) == 128 + nos[i] && Index(q[i]) == erased[i] {}
  }

  /** Every matrix that a decoding inverts is not singular, and neither is any of its leading minors,
      so the elimination always takes the diagonal pivot. */
  lemma DecodingMatrixIsNotSingular(n: nat, nos: seq<nat>, erased: seq<nat>)
    requires Decodable(n, nos, erased)
    ensures !Singular(DecodingMatrix(nos, erased), |nos|)
    ensures LeadingMinorsNonsingular(DecodingMatrix(nos, erased), |nos|)
  {
    hide Byte, Inv, Singular;
    DecodingPoints(n, nos, erased);
    CauchyIsNotSingular(RowPoints(nos), ColumnPoints(erased));
    CauchyMinorsAreNotSingular(RowPoints(nos), ColumnPoints(erased));
  }

  // ----- what the parity equations determine

  /** `d` and `e` agree outside of the lost blocks. */
  ghost predicate AgreeExcept(d: seq<Vec>, e: seq<Vec>, erased: seq<nat>) {
    |d| == |e| && forall c :: 0 <= c < |d| && c !in erased ==> d[c] == e[c]
  }

  lemma DecodingRow(n: nat, nos: seq<nat>, erased: seq<nat>, i: nat)
    requires Decodable(n, nos, erased) && i < |nos|
    ensures Pick(CodeRow(nos[i], n), erased) == DecodingMatrix(nos, erased)[i]
  {
    hide Byte, Inv;
  }

  /** Two sets of data blocks that agree outside of the lost blocks and have the same parity in the
      FEC blocks at hand are equal, byte by byte. */
  lemma ParityDeterminesByte(d: seq<Vec>, e: seq<Vec>, size: nat, t: nat, nos: seq<nat>, erased: seq<nat>)
    requires Decodable(|d|, nos, erased) && AgreeExcept(d, e, erased)
    requires AreBlocks(d, size) && AreBlocks(e, size) && t < size
    requires forall i :: 0 <= i < |nos| ==>
      Dot(CodeRow(nos[i], |d|), Column(d, size, t)) == Dot(CodeRow(nos[i], |d|), Column(e, size, t))
    ensures Column(d, size, t) == Column(e, size, t)
  {
    hide Add, Mul, Dot, Inv, Byte, Singular;
    var n, v, w := |d|, Column(d, size, t), Column(e, size, t);
    var x, y := Pick(v, erased), Pick(w, erased);
    var m := DecodingMatrix(nos, erased);
    var z := seq(|erased|, i requires 0 <= i < |erased| => Add(x[i], y[i]));
    var p, q := RowPoints(nos), ColumnPoints(erased);
    forall i | 0 <= i < |nos| ensures Dot(CauchyRow(p[i], q), z) == 0 {
      assert m[i] == CauchyRow(p[i], q);
      var row := CodeRow(nos[i], n);
      DotErased(row, v, erased);
      DotErased(row, w, erased);
      DotAgree(Known(row, erased), v, w);
      DecodingRow(n, nos, erased, i);
      AddRightCancel(Dot(m[i], x), Dot(m[i], y), Dot(Known(row, erased), v));
      DotSum(m[i], x, y, z);
      AddSelf(Dot(m[i], x));
    }
    DecodingPoints(n, nos, erased);
    CauchyKernel(p, q, z);
    forall c | 0 <= c < n ensures v[c] == w[c] {
      if c in erased {
        var i :| 0 <= i < |erased| && erased[i] == c;
        assert z[i] == Zeros(|z|)[i];
        AddZeroIsEqual(x[i], y[i]);
        assert x[i] == v[c] && y[i] == w[c];
      } else {
        assert d[c] == e[c];
      }
    }
  }

  lemma AddRightCancel(a: gf, b: gf, c: gf)
    requires Add(a, c) == Add(b, c)
    ensures a == b
  {
    AddMove(a, c, Add(a, c));
    AddMove(b, c, Add(a, c));
  }

  lemma DotSum(u: Vec, x: Vec, y: Vec, z: Vec)
    requires |u| == |x| == |y| == |z| && forall i :: 0 <= i < |z| ==> z[i] == Add(x[i], y[i])
    ensures Dot(u, z) == Add(Dot(u, x), Dot(u, y))
  {
    hide Add, Mul, Dot;
    DotComm(u, x);
    DotComm(u, y);
    DotComm(u, z);
    forall i | 0 <= i < |z| ensures z[i] == Add(x[i], Mul(1, y[i])) {
      MulByOneLeft(y[i]);
    }
    DotAddScaled(x, y, 1, z, u);
    MulByOneLeft(Dot(y, u));
  }

  /** Parity determines the lost blocks. */
  lemma ParityDetermines(d: seq<Vec>, e: seq<Vec>, size: nat, nos: seq<nat>, erased: seq<nat>)
    requires Decodable(|d|, nos, erased) && AgreeExcept(d, e, erased)
    requires AreBlocks(d, size) && AreBlocks(e, size)
    requires forall i :: 0 <= i < |nos| ==> Parity(nos[i], d, size) == Parity(nos[i], e, size)
    ensures d == e
  {
    hide Inv, Dot;
    forall t | 0 <= t < size ensures Column(d, size, t) == Column(e, size, t) {
      forall i | 0 <= i < |nos|
        ensures Dot(CodeRow(nos[i], |d|), Column(d, size, t)) == Dot(CodeRow(nos[i], |d|), Column(e, size, t))
      {
        assert Parity(nos[i], d, size)[t] == Parity(nos[i], e, size)[t];
      }
      ParityDeterminesByte(d, e, size, t, nos, erased);
    }
    forall c | 0 <= c < |d| ensures d[c] == e[c] {
      forall t | 0 <= t < size ensures d[c][t] == e[c][t] {
        assert Column(d, size, t)[c] == Column(e, size, t)[c];
      }
    }
  }

  // ----- building a combination block by block

  lemma CombineOne(c: gf, x: Vec, size: nat, b: Vec)
    requires |x| == size == |b| && forall t :: 0 <= t < size ==> b[t] == Mul(c, x[t])
    ensures b == Combine([c], [x], size)
  {
    hide Add, Mul;
    forall t | 0 <= t < size ensures b[t] == Combine([c], [x], size)[t] {
      assert Column([x], size, t) == [x[t]];
      DotAppend([], [], c, x[t]);
      assert [] + [c] == [c] && [] + [x[t]] == [x[t]];
      AddZero(Mul(c, x[t]));
    }
  }

  lemma CombineAppend(w: Vec, d: seq<Vec>, c: gf, x: Vec, size: nat, b: Vec)
    requires |w| == |d| && AreBlocks(d, size) && |x| == size == |b|
    requires forall t :: 0 <= t < size ==> b[t] == Add(Combine(w, d, size)[t], Mul(c, x[t]))
    ensures AreBlocks(d + [x], size)
    ensures b == Combine(w + [c], d + [x], size)
  {
    hide Add, Mul, Dot;
    forall t | 0 <= t < size ensures b[t] == Combine(w + [c], d + [x], size)[t] {
      assert Column(d + [x], size, t) == Column(d, size, t) + [x[t]];
      DotAppend(w, Column(d, size, t), c, x[t]);
    }
  }

  /** `b` plus a combination. */
  ghost function Plus(b: Vec, w: Vec, d: seq<Vec>, size: nat): (block: Vec)
    requires |w| == |d| && AreBlocks(d, size) && |b| == size
    ensures |block| == size && forall t :: 0 <= t < size ==> block[t] == Add(b[t], Combine(w, d, size)[t])
  {
    seq(size, t requires 0 <= t < size => Add(b[t], Combine(w, d, size)[t]))
  }

  lemma PlusNothing(b: Vec, size: nat)
    requires |b| == size
    ensures Plus(b, [], [], size) == b
  {
    hide Add, Mul;
    forall t | 0 <= t < size ensures Plus(b, [], [], size)[t] == b[t] {
      DotZeros([], []);
      assert Column([], size, t) == [];
      AddZero(b[t]);
    }
  }

  lemma PlusAppend(b: Vec, w: Vec, d: seq<Vec>, c: gf, x: Vec, size: nat, b': Vec)
    requires |w| == |d| && AreBlocks(d, size) && |x| == size == |b| == |b'|
    requires forall t :: 0 <= t < size ==> b'[t] == Add(Plus(b, w, d, size)[t], Mul(c, x[t]))
    ensures AreBlocks(d + [x], size)
    ensures b' == Plus(b, w + [c], d + [x], size)
  {
    hide Add, Mul, Dot, Combine;
    var sum := seq(size, t requires 0 <= t < size => Add(Combine(w, d, size)[t], Mul(c, x[t])));
    CombineAppend(w, d, c, x, size, sum);
    forall t | 0 <= t < size ensures b'[t] == Plus(b, w + [c], d + [x], size)[t] {
      AddAssoc(b[t], Combine(w, d, size)[t], Mul(c, x[t]));
    }
  }

  lemma PlusAppendZero(b: Vec, w: Vec, d: seq<Vec>, x: Vec, size: nat)
    requires |w| == |d| && AreBlocks(d, size) && |x| == size == |b|
    ensures AreBlocks(d + [x], size)
    ensures Plus(b, w, d, size) == Plus(b, w + [0], d + [x], size)
  {
    hide Add, Mul;
    forall t | 0 <= t < size ensures Plus(b, w, d, size)[t] == Add(Plus(b, w, d, size)[t], Mul(0, x[t])) {
      MulZero(x[t]);
      AddZero(Plus(b, w, d, size)[t]);
    }
    PlusAppend(b, w, d, 0, x, size, Plus(b, w, d, size));
  }

  // ----- solving the parity equations

  /** The lost blocks computed with the inverse of the decoding matrix satisfy the parity equations. */
  lemma InverseSolves(n: nat, nos: seq<nat>, erased: seq<nat>, inverse: Matrix, size: nat,
                      d: seq<Vec>, fec: seq<Vec>, reduced: seq<Vec>, d': seq<Vec>, r: nat)
    requires Decodable(n, nos, erased) && |d| == n == |d'| && |fec| == |nos| == |reduced| && r < |nos|
    requires AreBlocks(d, size) && AreBlocks(fec, size) && AreBlocks(reduced, size) && AreBlocks(d', size)
    requires ProductIsIdentity(DecodingMatrix(nos, erased), inverse, |nos|)
    requires AgreeExcept(d', d, erased)
    requires forall i :: 0 <= i < |nos| ==>
      reduced[i] == Plus(fec[i], Known(CodeRow(nos[i], n), erased), d, size)
    requires forall i :: 0 <= i < |nos| ==> d'[erased[i]] == Combine(inverse[i], reduced, size)
    ensures Parity(nos[r], d', size) == fec[r]
  {
    hide Add, Mul, Inv, Byte, Dot, Singular, ProductIsIdentity;
    IdentityShape(DecodingMatrix(nos, erased), inverse, |nos|);
    forall t | 0 <= t < size ensures Parity(nos[r], d', size)[t] == fec[r][t] {
      var row, v, w := CodeRow(nos[r], n), Column(d', size, t), Column(d, size, t);
      var known := Known(row, erased);
      var f, x := Column(reduced, size, t), Pick(v, erased);
      DotErased(row, v, erased);
      DotAgree(known, v, w);
      DecodingRow(n, nos, erased, r);
      forall i | 0 <= i < |nos| ensures x[i] == Dot(inverse[i], f) {
        assert d'[erased[i]][t] == v[erased[i]];
      }
      SolveRow(DecodingMatrix(nos, erased), inverse, |nos|, f, x, r);
      assert f[r] == Add(fec[r][t], Dot(known, w)) by {
        assert reduced[r][t] == Add(fec[r][t], Combine(known, d, size)[t]);
      }
      AddAssoc(fec[r][t], Dot(known, w), Dot(known, w));
      AddSelf(Dot(known, w));
      AddZero(fec[r][t]);
    }
  }

  lemma IdentityShape(a: Matrix, b: Matrix, k: nat)
    requires ProductIsIdentity(a, b, k)
    ensures IsMatrix(a, k, k) && IsMatrix(b, k, k)
  {}

  /** m * (inverse * f) == f */
  lemma SolveRow(m: Matrix, inverse: Matrix, k: nat, f: Vec, x: Vec, r: nat)
    requires ProductIsIdentity(m, inverse, k) && |f| == k && |x| == k && r < k
    requires forall i :: 0 <= i < k ==> x[i] == Dot(inverse[i], f)
    ensures Dot(m[r], x) == f[r]
  {
    hide Dot;
    DotAssoc(m[r], inverse, f, x, Unit(k, r));
    DotUnit(f, r);
  }

  // ----- an example

  lemma ProductsOfExample()
    ensures Mul(0x80, 0x1b) == 1 && Mul(0x81, 0x54) == 1
    ensures Mul(0x1b, 2) == 0x36 && Mul(0x54, 2) == 0xa8
  {
    PartZero(0xcd, 3);
    PartZero(0x93, 1);
    assert Part(0x74, 3, 5) == 0x9c && Part(0x3a, 6, 6) == 0x9c && Part(0x1d, 0x0d, 7) == 0x81;
    assert Part(0xc7, 1, 2) == 0xc7 && Part(0xed, 2, 3) == 0xc7 && Part(0xf8, 5, 4) == 0x3f;
    assert Part(0x7c, 0x0a, 5) == 0x3f && Part(0x3e, 0x15, 6) == 1 && Part(0x1f, 0x2a, 7) == 1;
    PartZero(0x6c, 6);
    PartZero(0x4d, 6);
  }

  lemma BytesOfExample()
    ensures Add(Byte(128), Byte(0)) == 0x80 && Add(Byte(128), Byte(1)) == 0x81
    ensures Add(Byte(129), Byte(0)) == 0x81 && Add(Byte(129), Byte(1)) == 0x80
  {
    hide Byte;
    ByteIndex(0);
    ByteIndex(1);
    ByteIndex(0x80);
    ByteIndex(0x81);
  }

  lemma CoefficientsOfExample()
    ensures Coefficient(0, 0) == Coefficient(1, 1) == 0x1b && Coefficient(0, 1) == Coefficient(1, 0) == 0x54
  {
    hide Add, Byte, Mul, Inv;
    BytesOfExample();
    ProductsOfExample();
    InvUnique(0x80, 0x1b);
    InvUnique(0x81, 0x54);
  }

  /** Two data blocks of two bytes, and their first two FEC blocks. */
  lemma ParityOfExample()
    ensures Parity(0, [[1, 2], [1, 0]], 2) == [0x4f, 0x36] && Parity(1, [[1, 2], [1, 0]], 2) == [0x4f, 0xa8]
  {
    hide Mul, Inv, Coefficient;
    CoefficientsOfExample();
    ProductsOfExample();
    var d: seq<Vec> := [[1, 2], [1, 0]];
    assert Column(d, 2, 0) == [1, 1] && Column(d, 2, 1) == [2, 0];
    assert CodeRow(0, 2) == [0x1b, 0x54] && CodeRow(1, 2) == [0x54, 0x1b];
    MulByOne(0x1b);
    MulByOne(0x54);
    MulZero(0x1b);
    MulZero(0x54);
    DotOfTwo(0x1b, 0x54, 1, 1);
    DotOfTwo(0x1b, 0x54, 2, 0);
    DotOfTwo(0x54, 0x1b, 1, 1);
    DotOfTwo(0x54, 0x1b, 2, 0);
  }

  lemma DotOfTwo(a: gf, b: gf, x: gf, y: gf)
    ensures Dot([a, b], [x, y]) == Add(Mul(a, x), Mul(b, y))
  {
    hide Mul, Add;
    AddZero(Mul(b, y));
    assert [a, b][1..] == [b] && [x, y][1..] == [y] && [b][1..] == [] && [y][1..] == [];
    assert Dot([b], [y]) == Add(Mul(b, y), Dot([b][1..], [y][1..]));
  }
}
