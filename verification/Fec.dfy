/** Encoding and decoding of blocks of bytes in place. */
module Fec {
  import opened Field
  import opened Tables
  import opened Kernels
  import opened LinearAlgebra
  import opened Exchange
  import opened Inversion
  import opened Cauchy
  import opened Erasure

  // ----- coefficients from the table of inverses

  /** The exclusive or of two indices below 256. */
  function XorIndex(a: nat, b: nat): (c: nat)
    requires a < 256 && b < 256
    ensures c < 256
  {
    Index(Add(Byte(a), Byte(b)))
  }

  /** The three ways the source forms the index of a coefficient. */
  lemma CoefficientIndex(r: nat, c: nat)
    requires r < MAX_BLOCKS && c < MAX_BLOCKS
    ensures Inv(Byte(XorIndex(r, 128 + c))) == Coefficient(r, c)
    ensures Inv(Byte(XorIndex(XorIndex(r, c), 128))) == Coefficient(r, c)
    ensures Inv(Byte(XorIndex(128 + r, c))) == Coefficient(r, c)
  {
    hide Add, Byte, Index, Inv;
    var p, q, h := Byte(r), Byte(c), Byte(128);
    HighBit(r);
    HighBit(c);
    ByteIndex(Add(p, Byte(128 + c)));
    ByteIndex(Add(p, q));
    ByteIndex(Add(Add(p, q), h));
    ByteIndex(Add(Byte(128 + r), q));
    AddAssoc(h, p, q);
    AddComm(h, Add(p, q));
    AddAssoc(p, h, q);
    AddComm(p, h);
  }

  lemma FirstCoefficientIndex(r: nat)
    requires r < MAX_BLOCKS
    ensures Inv(Byte(XorIndex(128, r))) == Coefficient(r, 0)
  {
    hide Add, Byte, Index, Inv;
    var p, h := Byte(r), Byte(128);
    HighBit(r);
    ByteIndex(Add(h, p));
    SmallBytes();
    AddZero(Byte(128 + r));
  }

  // ----- blocks in memory

  /** The first `size` bytes of each block. */
  ghost function Contents(blocks: seq<array<gf>>, size: nat): (d: seq<Vec>)
    requires Hold(blocks, size)
    reads blocks
    ensures |d| == |blocks| && AreBlocks(d, size)
    ensures forall i :: 0 <= i < |blocks| ==> d[i] == blocks[i][..size]
  {
    seq(|blocks|, i requires 0 <= i < |blocks| reads blocks => blocks[i][..size])
  }

  /** Every block has room for `size` bytes. */
  ghost predicate Hold(blocks: seq<array<gf>>, size: nat) {
    forall i :: 0 <= i < |blocks| ==> size <= blocks[i].Length
  }

  /** Blocks that can be written one at a time without touching each other or the tables. */
  ghost predicate Writable(g: Galois, blocks: seq<array<gf>>) {
    Distinct(blocks) && forall i :: 0 <= i < |blocks| ==> Outside(g, blocks[i])
  }

  /** dst = c * src */
  method SetBlock(g: Galois, dst: array<gf>, src: array<gf>, c: gf, size: nat)
    requires g.Ready() && Outside(g, dst) && size <= dst.Length && size <= src.Length && dst != src
    modifies dst
    ensures g.Ready() && dst[size..] == old(dst[size..])
    ensures dst[..size] == Combine([c], [src[..size]], size)
  {
    hide Mul, Galois.Ready;
    ghost var before := dst[..];
    MulBlock(g, dst, 0, src, 0, c, size);
    forall t | 0 <= t < size ensures dst[..size][t] == Mul(c, src[..size][t]) {
      assert dst[..][t] == Mul(c, src[0..0 + size][t]);
    }
    forall t | 0 <= t < |dst[size..]| ensures dst[size..][t] == before[size..][t] {
      assert dst[..][size + t] == before[size + t];
    }
    CombineOne(c, src[..size], size, dst[..size]);
  }

  /** dst += c * src */
  method AddBlock(g: Galois, dst: array<gf>, src: array<gf>, c: gf, size: nat)
    requires g.Ready() && Outside(g, dst) && size <= dst.Length && size <= src.Length && dst != src
    modifies dst
    ensures g.Ready() && dst[size..] == old(dst[size..])
    ensures forall t :: 0 <= t < size ==> dst[..size][t] == Add(old(dst[..size])[t], Mul(c, src[..size][t]))
  {
    hide Add, Mul, Galois.Ready;
    ghost var before := dst[..];
    AddMulBlock(g, dst, 0, src, 0, c, size);
    forall t | 0 <= t < size ensures dst[..size][t] == Add(before[..size][t], Mul(c, src[..size][t])) {
      assert dst[..][t] == Add(before[t], Mul(c, src[0..0 + size][t]));
    }
    forall t | 0 <= t < |dst[size..]| ensures dst[size..][t] == before[size..][t] {
      assert dst[..][size + t] == before[size + t];
    }
  }

  // ----- encoding

  ghost function PartialParity(r: nat, d: seq<Vec>, n: nat, size: nat): (block: Vec)
    requires r < MAX_BLOCKS && n <= |d| <= MAX_BLOCKS && AreBlocks(d, size)
    ensures |block| == size
  {
    Parity(r, d[..n], size)
  }

  lemma PartialParityNext(r: nat, d: seq<Vec>, n: nat, size: nat, b: Vec)
    requires r < MAX_BLOCKS && n < |d| <= MAX_BLOCKS && AreBlocks(d, size) && |b| == size
    requires forall t :: 0 <= t < size ==>
      b[t] == Add(PartialParity(r, d, n, size)[t], Mul(Coefficient(r, n), d[n][t]))
    ensures b == PartialParity(r, d, n + 1, size)
  {
    hide Add, Mul, Inv, Byte, Combine;
    CombineAppend(CodeRow(r, n), d[..n], Coefficient(r, n), d[n], size, b);
    assert d[..n] + [d[n]] == d[..n + 1];
    assert CodeRow(r, n) + [Coefficient(r, n)] == CodeRow(r, n + 1);
  }

  lemma PartialParityOne(r: nat, d: seq<Vec>, size: nat, w: Vec, first: seq<Vec>)
    requires r < MAX_BLOCKS && 0 < |d| <= MAX_BLOCKS && AreBlocks(d, size)
    requires |w| == 1 == |first| && w[0] == Coefficient(r, 0) && first[0] == d[0]
    ensures AreBlocks(first, size) && Combine(w, first, size) == PartialParity(r, d, 1, size)
  {
    hide Coefficient, Combine;
    assert first == d[..1];
    assert w == CodeRow(r, 1);
  }

  /** Every FEC block holds the parity of the first `n` data blocks, and its tail is as before. */
  ghost predicate Encoded(fec: seq<array<gf>>, d: seq<Vec>, n: nat, size: nat, tails: seq<Vec>)
    requires |fec| <= MAX_BLOCKS && |tails| == |fec| && n <= |d| <= MAX_BLOCKS && AreBlocks(d, size) && Hold(fec, size)
    reads fec
  {
    forall r :: 0 <= r < |fec| ==> fec[r][..size] == PartialParity(r, d, n, size) && fec[r][size..] == tails[r]
  }

  /** The first data block sets the FEC blocks. */
  method EncodeFirst(g: Galois, size: nat, data: seq<array<gf>>, fec: seq<array<gf>>,
                     ghost d: seq<Vec>, ghost tails: seq<Vec>)
    requires g.Ready() && 0 < |data| <= MAX_BLOCKS && |fec| <= MAX_BLOCKS && |tails| == |fec|
    requires Hold(data, size) && Hold(fec, size) && Writable(g, fec) && Disjoint(data, fec)
    requires Contents(data, size) == d
    requires forall r :: 0 <= r < |fec| ==> fec[r][size..] == tails[r]
    modifies fec
    ensures g.Ready() && Contents(data, size) == d && Encoded(fec, d, 1, size, tails)
  {
    hide Galois.Ready, Inv, Byte, Combine, Parity, PartialParity, XorIndex, Coefficient;
    for row := 0 to |fec|
      invariant g.Ready() && Contents(data, size) == d
      invariant forall r :: 0 <= r < |fec| ==> fec[r][size..] == tails[r]
      invariant forall r :: 0 <= r < row ==> fec[r][..size] == PartialParity(r, d, 1, size)
    {
      FirstCoefficientIndex(row);
      var c := g.InverseAt(XorIndex(128, row));
      SetBlock(g, fec[row], data[0], c, size);
      PartialParityOne(row, d, size, [c], [d[0]]);
    }
  }

  /** Every further data block is added to the FEC blocks. */
  method EncodeNext(g: Galois, size: nat, data: seq<array<gf>>, fec: seq<array<gf>>, blockNo: nat, col: nat,
                    ghost d: seq<Vec>, ghost tails: seq<Vec>)
    requires g.Ready() && blockNo < |data| <= MAX_BLOCKS && |fec| <= MAX_BLOCKS && |tails| == |fec|
    requires Hold(data, size) && Hold(fec, size) && Writable(g, fec) && Disjoint(data, fec)
    requires Contents(data, size) == d && Encoded(fec, d, blockNo, size, tails) && col == 128 + blockNo
    modifies fec
    ensures g.Ready() && Contents(data, size) == d && Encoded(fec, d, blockNo + 1, size, tails)
  {
    hide Galois.Ready, Add, Mul, Inv, Byte, Combine, Parity, PartialParity, XorIndex, Coefficient;
    for row := 0 to |fec|
      invariant g.Ready() && Contents(data, size) == d
      invariant forall r :: 0 <= r < |fec| ==> fec[r][size..] == tails[r]
      invariant forall r :: 0 <= r < row ==> fec[r][..size] == PartialParity(r, d, blockNo + 1, size)
      invariant forall r :: row <= r < |fec| ==> fec[r][..size] == PartialParity(r, d, blockNo, size)
    {
      CoefficientIndex(row, blockNo);
      var c := g.InverseAt(XorIndex(row, col));
      AddBlock(g, fec[row], data[blockNo], c, size);
      PartialParityNext(row, d, blockNo, size, fec[row][..size]);
    }
  }

  /** The parities of all data blocks, one data block after the other. */
  method FecEncode(g: Galois, size: nat, data: seq<array<gf>>, fec: seq<array<gf>>)
    requires g.Ready() && |data| <= 128 && |fec| <= 128
    requires Hold(data, size) && Hold(fec, size) && Writable(g, fec) && Disjoint(data, fec)
    modifies fec
    ensures g.Ready()
    ensures Contents(data, size) == old(Contents(data, size))
    ensures forall r :: 0 <= r < |fec| ==> fec[r][size..] == old(fec[r][size..])
    ensures |data| > 0 ==> forall r :: 0 <= r < |fec| ==>
      fec[r][..size] == Parity(r, Contents(data, size), size)
    ensures |data| == 0 ==> forall r :: 0 <= r < |fec| ==> fec[r][..] == old(fec[r][..])
  {
    hide Galois.Ready, Parity, PartialParity, Contents, Tails;
    if |data| == 0 {
      return;
    }
    ghost var d := Contents(data, size);
    ghost var tails := Tails(fec, size);
    EncodeFirst(g, size, data, fec, d, tails);
    var col, blockNo := 129, 1;
    while blockNo < |data|
      invariant 1 <= blockNo <= |data| && col == 128 + blockNo
      invariant g.Ready() && Contents(data, size) == d && Encoded(fec, d, blockNo, size, tails)
    {
      EncodeNext(g, size, data, fec, blockNo, col, d, tails);
      col, blockNo := col + 1, blockNo + 1;
    }
    forall r | 0 <= r < |fec| ensures fec[r][..size] == Parity(r, d, size) {
      WholeParity(r, d, size);
    }
  }

  /** What follows the first `size` bytes of each block. */
  ghost function Tails(blocks: seq<array<gf>>, size: nat): (t: seq<Vec>)
    requires Hold(blocks, size)
    reads blocks
    ensures |t| == |blocks| && forall i :: 0 <= i < |blocks| ==> t[i] == blocks[i][size..]
  {
    seq(|blocks|, i requires 0 <= i < |blocks| reads blocks => blocks[i][size..])
  }

  lemma WholeParity(r: nat, d: seq<Vec>, size: nat)
    requires r < MAX_BLOCKS && |d| <= MAX_BLOCKS && AreBlocks(d, size)
    ensures PartialParity(r, d, |d|, size) == Parity(r, d, size)
  {
    assert d[..|d|] == d;
  }

  // ----- decoding: taking the known data blocks out of the FEC blocks

  /** FEC block `b` with number `no`, plus the known ones of the first `n` data blocks. */
  ghost function PartlyReduced(b: Vec, no: nat, d: seq<Vec>, n: nat, erased: seq<nat>, size: nat): (block: Vec)
    requires no < MAX_BLOCKS && n <= |d| <= MAX_BLOCKS && AreBlocks(d, size) && |b| == size
    ensures |block| == size
  {
    Plus(b, Known(CodeRow(no, n), erased), d[..n], size)
  }

  lemma PartlyReducedStart(b: Vec, no: nat, d: seq<Vec>, erased: seq<nat>, size: nat)
    requires no < MAX_BLOCKS && |d| <= MAX_BLOCKS && AreBlocks(d, size) && |b| == size
    ensures PartlyReduced(b, no, d, 0, erased, size) == b
  {
    assert d[..0] == [] && Known(CodeRow(no, 0), erased) == [];
    PlusNothing(b, size);
  }

  lemma KnownNext(no: nat, n: nat, erased: seq<nat>)
    requires no < MAX_BLOCKS && n < MAX_BLOCKS
    ensures Known(CodeRow(no, n + 1), erased) ==
            Known(CodeRow(no, n), erased) + [if n in erased then 0 else Coefficient(no, n)]
  {
    hide Coefficient;
  }

  lemma PartlyReducedErased(b: Vec, no: nat, d: seq<Vec>, n: nat, erased: seq<nat>, size: nat)
    requires no < MAX_BLOCKS && n < |d| <= MAX_BLOCKS && AreBlocks(d, size) && |b| == size && n in erased
    ensures PartlyReduced(b, no, d, n + 1, erased, size) == PartlyReduced(b, no, d, n, erased, size)
  {
    hide Plus, Coefficient;
    KnownNext(no, n, erased);
    assert d[..n] + [d[n]] == d[..n + 1];
    PlusAppendZero(b, Known(CodeRow(no, n), erased), d[..n], d[n], size);
  }

  lemma PartlyReducedKnown(b: Vec, no: nat, d: seq<Vec>, n: nat, erased: seq<nat>, size: nat, b': Vec)
    requires no < MAX_BLOCKS && n < |d| <= MAX_BLOCKS && AreBlocks(d, size) && |b| == size == |b'| && n !in erased
    requires forall t :: 0 <= t < size ==>
      b'[t] == Add(PartlyReduced(b, no, d, n, erased, size)[t], Mul(Coefficient(no, n), d[n][t]))
    ensures b' == PartlyReduced(b, no, d, n + 1, erased, size)
  {
    hide Plus, Coefficient, Add, Mul;
    KnownNext(no, n, erased);
    assert d[..n] + [d[n]] == d[..n + 1];
    PlusAppend(b, Known(CodeRow(no, n), erased), d[..n], Coefficient(no, n), d[n], size, b');
  }

  /** The FEC blocks after the first `n` data blocks have been dealt with. */
  ghost predicate Reduced(fec: seq<array<gf>>, f: seq<Vec>, nos: seq<nat>, d: seq<Vec>, n: nat, erased: seq<nat>,
                          size: nat, tails: seq<Vec>)
    requires |f| == |fec| == |nos| == |tails| && AllBelow(nos, MAX_BLOCKS)
    requires n <= |d| <= MAX_BLOCKS && AreBlocks(d, size) && AreBlocks(f, size) && Hold(fec, size)
    reads fec
  {
    forall j :: 0 <= j < |fec| ==>
      fec[j][..size] == PartlyReduced(f[j], nos[j], d, n, erased, size) && fec[j][size..] == tails[j]
  }

  /** Adds the known data block `col` to every FEC block. */
  method ReduceBy(g: Galois, size: nat, src: array<gf>, col: nat, fec: seq<array<gf>>, nos: seq<nat>,
                  ghost erased: seq<nat>, ghost f: seq<Vec>, ghost d: seq<Vec>, ghost tails: seq<Vec>)
    requires g.Ready() && |f| == |fec| == |nos| == |tails| && AllBelow(nos, MAX_BLOCKS)
    requires col < |d| <= MAX_BLOCKS && AreBlocks(d, size) && AreBlocks(f, size) && Hold(fec, size)
    requires Writable(g, fec) && src !in fec && size <= src.Length && src[..size] == d[col] && col !in erased
    requires Reduced(fec, f, nos, d, col, erased, size, tails)
    modifies fec
    ensures g.Ready()
    ensures Reduced(fec, f, nos, d, col + 1, erased, size, tails)
  {
    hide Galois.Ready, Add, Mul, Inv, Byte, XorIndex, Coefficient, PartlyReduced;
    for j := 0 to |fec|
      invariant g.Ready() && src[..size] == d[col]
      invariant forall r :: 0 <= r < |fec| ==> fec[r][size..] == tails[r]
      invariant forall r :: 0 <= r < j ==> fec[r][..size] == PartlyReduced(f[r], nos[r], d, col + 1, erased, size)
      invariant forall r :: j <= r < |fec| ==> fec[r][..size] == PartlyReduced(f[r], nos[r], d, col, erased, size)
    {
      var blno := nos[j];
      CoefficientIndex(blno, col);
      var c := g.InverseAt(XorIndex(XorIndex(blno, col), 128));
      AddBlock(g, fec[j], src, c, size);
      PartlyReducedKnown(f[j], blno, d, col, erased, size, fec[j][..size]);
    }
  }

  lemma ReducedStart(fec: seq<array<gf>>, f: seq<Vec>, nos: seq<nat>, d: seq<Vec>, erased: seq<nat>, size: nat,
                     tails: seq<Vec>)
    requires |f| == |fec| == |nos| && AllBelow(nos, MAX_BLOCKS) && |d| <= MAX_BLOCKS && AreBlocks(d, size)
    requires Hold(fec, size) && f == Contents(fec, size) && tails == Tails(fec, size)
    ensures Reduced(fec, f, nos, d, 0, erased, size, tails)
  {
    hide PartlyReduced;
    forall j | 0 <= j < |fec| ensures PartlyReduced(f[j], nos[j], d, 0, erased, size) == f[j] {
      PartlyReducedStart(f[j], nos[j], d, erased, size);
    }
  }

  lemma ReducedErased(fec: seq<array<gf>>, f: seq<Vec>, nos: seq<nat>, d: seq<Vec>, col: nat, erased: seq<nat>,
                      size: nat, tails: seq<Vec>)
    requires |f| == |fec| == |nos| == |tails| && AllBelow(nos, MAX_BLOCKS)
    requires col < |d| <= MAX_BLOCKS && AreBlocks(d, size) && AreBlocks(f, size) && Hold(fec, size)
    requires Reduced(fec, f, nos, d, col, erased, size, tails) && col in erased
    ensures Reduced(fec, f, nos, d, col + 1, erased, size, tails)
  {
    hide PartlyReduced;
    forall j | 0 <= j < |fec|
      ensures PartlyReduced(f[j], nos[j], d, col + 1, erased, size) == PartlyReduced(f[j], nos[j], d, col, erased, size)
    {
      PartlyReducedErased(f[j], nos[j], d, col, erased, size);
    }
  }

  lemma ReducedEnd(fec: seq<array<gf>>, f: seq<Vec>, nos: seq<nat>, d: seq<Vec>, erased: seq<nat>, size: nat,
                   tails: seq<Vec>)
    requires |f| == |fec| == |nos| == |tails| && AllBelow(nos, MAX_BLOCKS)
    requires |d| <= MAX_BLOCKS && AreBlocks(d, size) && AreBlocks(f, size) && Hold(fec, size)
    requires Reduced(fec, f, nos, d, |d|, erased, size, tails)
    ensures Tails(fec, size) == tails
    ensures forall j :: 0 <= j < |fec| ==>
      fec[j][..size] == Plus(f[j], Known(CodeRow(nos[j], |d|), erased), d, size)
  {
    hide PartlyReduced, Plus, Known, CodeRow;
    forall j | 0 <= j < |fec|
      ensures PartlyReduced(f[j], nos[j], d, |d|, erased, size)
           == Plus(f[j], Known(CodeRow(nos[j], |d|), erased), d, size)
    {
      WholeReduced(f[j], nos[j], d, erased, size);
    }
  }

  /** Leaves in each FEC block the contribution of the lost data blocks only. */
  method Reduce(g: Galois, size: nat, data: seq<array<gf>>, fec: seq<array<gf>>, nos: seq<nat>, erased: seq<nat>)
    requires g.Ready() && Decodable(|data|, nos, erased) && |fec| == |nos|
    requires Hold(data, size) && Hold(fec, size) && Writable(g, fec) && Disjoint(data, fec)
    modifies fec
    ensures g.Ready() && Contents(data, size) == old(Contents(data, size))
    ensures Tails(fec, size) == old(Tails(fec, size))
    ensures forall j :: 0 <= j < |fec| ==>
      fec[j][..size] ==
      Plus(old(Contents(fec, size))[j], Known(CodeRow(nos[j], |data|), erased), Contents(data, size), size)
  {
    hide Galois.Ready, Reduced, Plus, Known, Contents, Tails, CodeRow;
    ghost var d, f, tails := Contents(data, size), Contents(fec, size), Tails(fec, size);
    ReducedStart(fec, f, nos, d, erased, size, tails);
    var erasedIdx := 0;
    for col := 0 to |data|
      invariant g.Ready() && Contents(data, size) == d && erasedIdx <= |erased|
      invariant forall i :: 0 <= i < erasedIdx ==> erased[i] < col
      invariant forall i :: erasedIdx <= i < |erased| ==> col <= erased[i]
      invariant erasedIdx < |erased| ==> col <= erased[erasedIdx] < |data|
      invariant Reduced(fec, f, nos, d, col, erased, size, tails)
    {
      if erasedIdx < |erased| && erased[erasedIdx] == col {
        ReducedErased(fec, f, nos, d, col, erased, size, tails);
        erasedIdx := erasedIdx + 1;
      } else {
        ReduceBy(g, size, data[col], col, fec, nos, erased, f, d, tails);
      }
    }
    assert |erased| == erasedIdx;
    ReducedEnd(fec, f, nos, d, erased, size, tails);
  }

  lemma WholeReduced(b: Vec, no: nat, d: seq<Vec>, erased: seq<nat>, size: nat)
    requires no < MAX_BLOCKS && |d| <= MAX_BLOCKS && AreBlocks(d, size) && |b| == size
    ensures PartlyReduced(b, no, d, |d|, erased, size) == Plus(b, Known(CodeRow(no, |d|), erased), d, size)
  {
    assert d[..|d|] == d;
  }

  // ----- decoding: solving for the lost data blocks

  /** The coefficients of the lost data blocks in the FEC blocks at hand. */
  method BuildMatrix(g: Galois, nos: seq<nat>, erased: seq<nat>) returns (matrix: array<gf>)
    requires g.Ready() && |nos| == |erased| && AllBelow(nos, MAX_BLOCKS) && AllBelow(erased, MAX_BLOCKS)
    ensures fresh(matrix) && matrix.Length == |nos| * |nos|
    ensures Rows(matrix[..], |nos|) == DecodingMatrix(nos, erased)
  {
    hide Galois.Ready, Inv, Byte, XorIndex, Coefficient, Rows, DecodingMatrix;
    var k := |nos|;
    matrix := new gf[k * k];
    for row := 0 to k
      invariant g.Ready()
      invariant forall r :: 0 <= r < row ==> Rows(matrix[..], k)[r] == DecodingMatrix(nos, erased)[r]
    {
      var irow := 128 + nos[row];
      BuildRow(g, nos, erased, row, irow, matrix);
    }
  }

  method BuildRow(g: Galois, nos: seq<nat>, erased: seq<nat>, row: nat, irow: nat, matrix: array<gf>)
    requires g.Ready() && Outside(g, matrix) && matrix.Length == |nos| * |nos|
    requires |nos| == |erased| && AllBelow(nos, MAX_BLOCKS) && AllBelow(erased, MAX_BLOCKS)
    requires row < |nos| && irow == 128 + nos[row]
    requires forall r :: 0 <= r < row ==> Rows(matrix[..], |nos|)[r] == DecodingMatrix(nos, erased)[r]
    modifies matrix
    ensures g.Ready()
    ensures forall r :: 0 <= r <= row ==> Rows(matrix[..], |nos|)[r] == DecodingMatrix(nos, erased)[r]
  {
    hide Galois.Ready, Inv, Byte, XorIndex, Coefficient, Rows, DecodingMatrix, Add;
    var k := |nos|;
    for col := 0 to k
      invariant g.Ready()
      invariant forall r :: 0 <= r < row ==> Rows(matrix[..], k)[r] == DecodingMatrix(nos, erased)[r]
      invariant forall c :: 0 <= c < col ==> Rows(matrix[..], k)[row][c] == Coefficient(nos[row], erased[c])
    {
      CoefficientIndex(nos[row], erased[col]);
      var c := g.InverseAt(XorIndex(irow, erased[col]));
      SetEntry(matrix, k, row, col, c);
    }
    assert Rows(matrix[..], k)[row] == DecodingMatrix(nos, erased)[row];
  }

  /** Row `row` of the inverse times the reduced FEC blocks. */
  method ResolveOne(g: Galois, size: nat, target: array<gf>, fec: seq<array<gf>>, matrix: array<gf>, k: nat, row: nat,
                    ghost f: seq<Vec>)
    requires g.Ready() && Outside(g, target) && target !in fec && size <= target.Length && Hold(fec, size)
    requires |fec| == k && row < k && matrix.Length == k * k && matrix != target
    requires Contents(fec, size) == f
    modifies target
    ensures g.Ready() && Contents(fec, size) == f
    ensures target[size..] == old(target[size..])
    ensures target[..size] == Combine(Rows(matrix[..], k)[row], f, size)
  {
    hide Galois.Ready, Add, Mul, Combine, Rows, Contents;
    ghost var w := Rows(matrix[..], k)[row];
    ghost var m := matrix[..];
    var c := GetEntry(matrix, k, row, 0);
    SetBlock(g, target, fec[0], c, size);
    assert [w[0]] == w[..1] && [f[0]] == f[..1];
    for col := 1 to k
      invariant g.Ready() && matrix[..] == m && Contents(fec, size) == f
      invariant target[size..] == old(target[size..])
      invariant target[..size] == Combine(w[..col], f[..col], size)
    {
      c := GetEntry(matrix, k, row, col);
      AddBlock(g, target, fec[col], c, size);
      CombineAppend(w[..col], f[..col], c, f[col], size, target[..size]);
      assert w[..col] + [c] == w[..col + 1] && f[..col] + [f[col]] == f[..col + 1];
    }
    assert w[..k] == w && f[..k] == f;
  }

  /** The matrix of `BuildMatrix`, inverted.  The inversion cannot fail. */
  method InvertedMatrix(g: Galois, n: nat, nos: seq<nat>, erased: seq<nat>) returns (matrix: array<gf>)
    requires g.Ready() && Decodable(n, nos, erased)
    ensures g.Ready() && fresh(matrix) && matrix.Length == |nos| * |nos|
    ensures ProductIsIdentity(DecodingMatrix(nos, erased), Rows(matrix[..], |nos|), |nos|)
  {
    hide Galois.Ready, Rows, Singular, LeadingMinorsNonsingular, DecodingMatrix, ProductIsIdentity, ArePivots;
    matrix := BuildMatrix(g, nos, erased);
    DecodingMatrixIsNotSingular(n, nos, erased);
    var r, _, _ := InvertMat(g, matrix, |nos|);
    if r {
      assert false;
    }
  }

  /** Fills in the lost data blocks from the reduced FEC blocks. */
  method Resolve(g: Galois, size: nat, data: seq<array<gf>>, fec: seq<array<gf>>, nos: seq<nat>, erased: seq<nat>)
    returns (ghost inverse: Matrix)
    requires g.Ready() && Decodable(|data|, nos, erased) && |fec| == |nos|
    requires Hold(data, size) && Hold(fec, size) && Writable(g, data) && Disjoint(data, fec)
    modifies data
    ensures g.Ready() && Contents(fec, size) == old(Contents(fec, size))
    ensures ProductIsIdentity(DecodingMatrix(nos, erased), inverse, |nos|)
    ensures forall c :: 0 <= c < |data| && c !in erased ==> data[c][..] == old(data[c][..])
    ensures Tails(data, size) == old(Tails(data, size))
    ensures forall i :: 0 <= i < |nos| ==> data[erased[i]][..size] == Combine(inverse[i], Contents(fec, size), size)
  {
    hide Galois.Ready, Rows, Contents, Tails, Combine, DecodingMatrix, ProductIsIdentity;
    var k := |nos|;
    ghost var f, tails := Contents(fec, size), Tails(data, size);
    var matrix := InvertedMatrix(g, |data|, nos, erased);
    inverse := Rows(matrix[..], k);
    ghost var m := matrix[..];
    for row := 0 to k
      invariant g.Ready() && matrix[..] == m && Contents(fec, size) == f && Tails(data, size) == tails
      invariant forall c :: 0 <= c < |data| && c !in erased[..row] ==> data[c][..] == old(data[c][..])
      invariant forall i :: 0 <= i < row ==> data[erased[i]][..size] == Combine(inverse[i], f, size)
    {
      ResolveOne(g, size, data[erased[row]], fec, matrix, k, row, f);
    }
    assert erased[..k] == erased;
  }

  /** Decoding: afterwards the data blocks satisfy the parity equation of every FEC block that was
      used, and only the blocks listed as erased and the FEC blocks have changed.  So if the FEC blocks
      were the parities of some data blocks that agree with the ones given except for the erased ones,
      the result is those data blocks. */
  method FecDecode(g: Galois, size: nat, data: seq<array<gf>>, fec: seq<array<gf>>, nos: seq<nat>, erased: seq<nat>)
    requires g.Ready() && Decodable(|data|, nos, erased) && |fec| == |nos|
    requires Hold(data, size) && Hold(fec, size) && Writable(g, data) && Writable(g, fec) && Disjoint(data, fec)
    modifies data, fec
    ensures g.Ready()
    ensures forall c :: 0 <= c < |data| && c !in erased ==> data[c][..] == old(data[c][..])
    ensures Tails(data, size) == old(Tails(data, size)) && Tails(fec, size) == old(Tails(fec, size))
    ensures forall r :: 0 <= r < |nos| ==> Parity(nos[r], Contents(data, size), size) == old(Contents(fec, size))[r]
    ensures forall d: seq<Vec> {:trigger AgreeExcept(d, old(Contents(data, size)), erased)} ::
      AreBlocks(d, size) && AgreeExcept(d, old(Contents(data, size)), erased) &&
      (forall r :: 0 <= r < |nos| ==> old(Contents(fec, size))[r] == Parity(nos[r], d, size)) ==>
      Contents(data, size) == d
  {
    hide Galois.Ready, Contents, Tails, Combine, Plus, DecodingMatrix, ProductIsIdentity, Parity, CodeRow, Known;
    ghost var d0, f0 := Contents(data, size), Contents(fec, size);
    Reduce(g, size, data, fec, nos, erased);
    ghost var reduced := Contents(fec, size);
    ghost var inverse := Resolve(g, size, data, fec, nos, erased);
    ghost var d1 := Contents(data, size);
    assert AgreeExcept(d1, d0, erased);
    forall r | 0 <= r < |nos| ensures Parity(nos[r], d1, size) == f0[r] {
      InverseSolves(|data|, nos, erased, inverse, size, d0, f0, reduced, d1, r);
    }
    forall d: seq<Vec> | AreBlocks(d, size) && AgreeExcept(d, d0, erased) &&
      (forall r :: 0 <= r < |nos| ==> f0[r] == Parity(nos[r], d, size))
      ensures d1 == d
    {
      ParityDetermines(d1, d, size, nos, erased);
    }
  }
}
