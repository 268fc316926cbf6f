/** The two inner loops of the code, unrolled sixteen times: dst += c * src and dst = c * src.
    A C pointer is an array and an offset into it; source and destination may be two ranges of one
    array as long as they do not overlap. */
module Kernels {
  import opened Field
  import opened Tables

  const UNROLL := 16

  /** `before` with `c` times `v` added to the bytes from `at` on. */
  ghost function AddScaled(before: seq<gf>, at: nat, c: gf, v: seq<gf>): (after: seq<gf>)
    requires at + |v| <= |before|
    ensures |after| == |before|
    ensures forall i :: 0 <= i < |before| ==>
      after[i] == if at <= i < at + |v| then Add(before[i], Mul(c, v[i - at])) else before[i]
  {
    seq(|before|, i requires 0 <= i < |before| =>
      if at <= i < at + |v| then Add(before[i], Mul(c, v[i - at])) else before[i])
  }

  /** `before` with the bytes from `at` on replaced by `c` times `v`. */
  ghost function SetScaled(before: seq<gf>, at: nat, c: gf, v: seq<gf>): (after: seq<gf>)
    requires at + |v| <= |before|
    ensures |after| == |before|
    ensures forall i :: 0 <= i < |before| ==>
      after[i] == if at <= i < at + |v| then Mul(c, v[i - at]) else before[i]
  {
    seq(|before|, i requires 0 <= i < |before| =>
      if at <= i < at + |v| then Mul(c, v[i - at]) else before[i])
  }

  /** The two ranges of `n` bytes do not overlap. */
  predicate Apart(dst: array<gf>, at: nat, src: array<gf>, from: nat, n: nat) {
    && at + n <= dst.Length && from + n <= src.Length
    && (dst == src ==> at + n <= from || from + n <= at)
  }

  /** A destination the tables do not live in. */
  predicate Outside(g: Galois, dst: array<gf>) {
    dst != g.inverse && dst != g.mulTable
  }

  /** One byte: `dst[at + n]` accumulates `c * src[from + n]`. */
  method AddMulC(g: Galois, dst: array<gf>, at: nat, src: array<gf>, from: nat, c: gf, n: nat,
                 ghost before: seq<gf>, ghost v: seq<gf>)
    requires g.Ready() && Outside(g, dst) && Apart(dst, at, src, from, |v|) && n < |v|
    requires src[from..from + |v|] == v && |before| == dst.Length
    requires dst[..] == AddScaled(before, at, c, v[..n])
    modifies dst
    ensures src[from..from + |v|] == v
    ensures dst[..] == AddScaled(before, at, c, v[..n + 1])
  {
    hide Add, Mul, Galois.Ready;
    assert src[from + n] == v[n];
    var product := g.Product(c, src[from + n]);
    dst[at + n] := Add(dst[at + n], product);
  }

  /** Sixteen bytes, one after the other. */
  method AddMulC16(g: Galois, dst: array<gf>, at: nat, src: array<gf>, from: nat, c: gf, n: nat,
                   ghost before: seq<gf>, ghost v: seq<gf>)
    requires g.Ready() && Outside(g, dst) && Apart(dst, at, src, from, |v|) && n + UNROLL <= |v|
    requires src[from..from + |v|] == v && |before| == dst.Length
    requires dst[..] == AddScaled(before, at, c, v[..n])
    modifies dst
    ensures src[from..from + |v|] == v
    ensures dst[..] == AddScaled(before, at, c, v[..n + UNROLL])
  {
    hide AddScaled, Galois.Ready;
    AddMulC(g, dst, at, src, from, c, n, before, v);
    AddMulC(g, dst, at, src, from, c, n + 1, before, v);
    AddMulC(g, dst, at, src, from, c, n + 2, before, v);
    AddMulC(g, dst, at, src, from, c, n + 3, before, v);
    AddMulC(g, dst, at, src, from, c, n + 4, before, v);
    AddMulC(g, dst, at, src, from, c, n + 5, before, v);
    AddMulC(g, dst, at, src, from, c, n + 6, before, v);
    AddMulC(g, dst, at, src, from, c, n + 7, before, v);
    AddMulC(g, dst, at, src, from, c, n + 8, before, v);
    AddMulC(g, dst, at, src, from, c, n + 9, before, v);
    AddMulC(g, dst, at, src, from, c, n + 10, before, v);
    AddMulC(g, dst, at, src, from, c, n + 11, before, v);
    AddMulC(g, dst, at, src, from, c, n + 12, before, v);
    AddMulC(g, dst, at, src, from, c, n + 13, before, v);
    AddMulC(g, dst, at, src, from, c, n + 14, before, v);
    AddMulC(g, dst, at, src, from, c, n + 15, before, v);
  }

  /** dst[at..at + sz] += c * src[from..from + sz], sixteen bytes at a time and then one by one.
      The limit of the unrolled loop is negative for short blocks. */
  method SlowAddMul1(g: Galois, dst: array<gf>, at: nat, src: array<gf>, from: nat, c: gf, sz: nat)
    requires g.Ready() && Outside(g, dst) && Apart(dst, at, src, from, sz)
    modifies dst
    ensures dst[..] == AddScaled(old(dst[..]), at, c, old(src[from..from + sz]))
  {
    hide AddScaled, Galois.Ready;
    ghost var before, v := dst[..], src[from..from + sz];
    var n := 0;
    var lim: int := sz - UNROLL + 1;
    AddScaledNothing(before, at, c);
    assert v[..0] == [];
    while n < lim
      invariant 0 <= n <= sz
      invariant src[from..from + sz] == v && dst[..] == AddScaled(before, at, c, v[..n])
    {
      AddMulC16(g, dst, at, src, from, c, n, before, v);
      n := n + UNROLL;
    }
    AddMulRest(g, dst, at, src, from, c, n, lim + UNROLL - 1, before, v);
  }

  /** The final bytes, from `n` to `lim` - 1. */
  method AddMulRest(g: Galois, dst: array<gf>, at: nat, src: array<gf>, from: nat, c: gf, start: nat, lim: nat,
                  ghost before: seq<gf>, ghost v: seq<gf>)
    requires g.Ready() && Outside(g, dst) && Apart(dst, at, src, from, |v|) && start <= lim == |v|
    requires src[from..from + |v|] == v && |before| == dst.Length
    requires dst[..] == AddScaled(before, at, c, v[..start])
    modifies dst
    ensures dst[..] == AddScaled(before, at, c, v)
  {
    hide AddScaled, Galois.Ready;
    var n := start;
    while n < lim
      invariant start <= n <= lim
      invariant src[from..from + |v|] == v && dst[..] == AddScaled(before, at, c, v[..n])
    {
      AddMulC(g, dst, at, src, from, c, n, before, v);
      n := n + 1;
    }
    assert v[..lim] == v;
  }

  lemma AddScaledNothing(before: seq<gf>, at: nat, c: gf)
    requires at <= |before|
    ensures AddScaled(before, at, c, []) == before
  {
    hide Add, Mul;
  }

  lemma AddScaledZero(before: seq<gf>, at: nat, v: seq<gf>)
    requires at + |v| <= |before|
    ensures AddScaled(before, at, 0, v) == before
  {
    hide Add, Mul;
    forall i | 0 <= i < |before| ensures AddScaled(before, at, 0, v)[i] == before[i] {
      if at <= i < at + |v| {
        MulZero(v[i - at]);
        AddZero(before[i]);
      }
    }
  }

  /** dst[at..at + sz] += c * src[from..from + sz]; nothing to do for c = 0. */
  method AddMulBlock(g: Galois, dst: array<gf>, at: nat, src: array<gf>, from: nat, c: gf, sz: nat)
    requires g.Ready() && Outside(g, dst) && Apart(dst, at, src, from, sz)
    modifies dst
    ensures dst[..] == AddScaled(old(dst[..]), at, c, old(src[from..from + sz]))
  {
    hide AddScaled, Galois.Ready;
    if c != 0 {
      SlowAddMul1(g, dst, at, src, from, c, sz);
    } else {
      AddScaledZero(dst[..], at, src[from..from + sz]);
    }
  }

  /** One byte: `dst[at + n]` becomes `c * src[from + n]`. */
  method MulC(g: Galois, dst: array<gf>, at: nat, src: array<gf>, from: nat, c: gf, n: nat,
              ghost before: seq<gf>, ghost v: seq<gf>)
    requires g.Ready() && Outside(g, dst) && Apart(dst, at, src, from, |v|) && n < |v|
    requires src[from..from + |v|] == v && |before| == dst.Length
    requires dst[..] == SetScaled(before, at, c, v[..n])
    modifies dst
    ensures src[from..from + |v|] == v
    ensures dst[..] == SetScaled(before, at, c, v[..n + 1])
  {
    hide Mul, Galois.Ready;
    assert src[from + n] == v[n];
    dst[at + n] := g.Product(c, src[from + n]);
  }

  method MulC16(g: Galois, dst: array<gf>, at: nat, src: array<gf>, from: nat, c: gf, n: nat,
                ghost before: seq<gf>, ghost v: seq<gf>)
    requires g.Ready() && Outside(g, dst) && Apart(dst, at, src, from, |v|) && n + UNROLL <= |v|
    requires src[from..from + |v|] == v && |before| == dst.Length
    requires dst[..] == SetScaled(before, at, c, v[..n])
    modifies dst
    ensures src[from..from + |v|] == v
    ensures dst[..] == SetScaled(before, at, c, v[..n + UNROLL])
  {
    hide SetScaled, Galois.Ready;
    MulC(g, dst, at, src, from, c, n, before, v);
    MulC(g, dst, at, src, from, c, n + 1, before, v);
    MulC(g, dst, at, src, from, c, n + 2, before, v);
    MulC(g, dst, at, src, from, c, n + 3, before, v);
    MulC(g, dst, at, src, from, c, n + 4, before, v);
    MulC(g, dst, at, src, from, c, n + 5, before, v);
    MulC(g, dst, at, src, from, c, n + 6, before, v);
    MulC(g, dst, at, src, from, c, n + 7, before, v);
    MulC(g, dst, at, src, from, c, n + 8, before, v);
    MulC(g, dst, at, src, from, c, n + 9, before, v);
    MulC(g, dst, at, src, from, c, n + 10, before, v);
    MulC(g, dst, at, src, from, c, n + 11, before, v);
    MulC(g, dst, at, src, from, c, n + 12, before, v);
    MulC(g, dst, at, src, from, c, n + 13, before, v);
    MulC(g, dst, at, src, from, c, n + 14, before, v);
    MulC(g, dst, at, src, from, c, n + 15, before, v);
  }

  method SlowMul1(g: Galois, dst: array<gf>, at: nat, src: array<gf>, from: nat, c: gf, sz: nat)
    requires g.Ready() && Outside(g, dst) && Apart(dst, at, src, from, sz)
    modifies dst
    ensures dst[..] == SetScaled(old(dst[..]), at, c, old(src[from..from + sz]))
  {
    hide SetScaled, Galois.Ready;
    ghost var before, v := dst[..], src[from..from + sz];
    var n := 0;
    var lim: int := sz - UNROLL + 1;
    SetScaledNothing(before, at, c);
    assert v[..0] == [];
    while n < lim
      invariant 0 <= n <= sz
      invariant src[from..from + sz] == v && dst[..] == SetScaled(before, at, c, v[..n])
    {
      MulC16(g, dst, at, src, from, c, n, before, v);
      n := n + UNROLL;
    }
    MulRest(g, dst, at, src, from, c, n, lim + UNROLL - 1, before, v);
  }

  /** The final bytes, from `n` to `lim` - 1. */
  method MulRest(g: Galois, dst: array<gf>, at: nat, src: array<gf>, from: nat, c: gf, start: nat, lim: nat,
                  ghost before: seq<gf>, ghost v: seq<gf>)
    requires g.Ready() && Outside(g, dst) && Apart(dst, at, src, from, |v|) && start <= lim == |v|
    requires src[from..from + |v|] == v && |before| == dst.Length
    requires dst[..] == SetScaled(before, at, c, v[..start])
    modifies dst
    ensures dst[..] == SetScaled(before, at, c, v)
  {
    hide SetScaled, Galois.Ready;
    var n := start;
    while n < lim
      invariant start <= n <= lim
      invariant src[from..from + |v|] == v && dst[..] == SetScaled(before, at, c, v[..n])
    {
      MulC(g, dst, at, src, from, c, n, before, v);
      n := n + 1;
    }
    assert v[..lim] == v;
  }

  lemma SetScaledNothing(before: seq<gf>, at: nat, c: gf)
    requires at <= |before|
    ensures SetScaled(before, at, c, []) == before
  {
    hide Mul;
  }

  /** dst[at..at + sz] = c * src[from..from + sz]; a cleared range for c = 0. */
  method MulBlock(g: Galois, dst: array<gf>, at: nat, src: array<gf>, from: nat, c: gf, sz: nat)
    requires g.Ready() && Outside(g, dst) && Apart(dst, at, src, from, sz)
    modifies dst
    ensures dst[..] == SetScaled(old(dst[..]), at, c, old(src[from..from + sz]))
  {
    hide Mul, Galois.Ready;
    if c != 0 {
      SlowMul1(g, dst, at, src, from, c, sz);
    } else {
      ghost var before, v := dst[..], src[from..from + sz];
      for n := 0 to sz
        invariant forall i :: 0 <= i < dst.Length ==>
          dst[i] == if at <= i < at + n then 0 else before[i]
      {
        dst[at + n] := 0;
      }
      forall i | 0 <= i < dst.Length ensures dst[i] == SetScaled(before, at, 0, v)[i] {
        if at <= i < at + sz {
          MulZero(v[i - at]);
        }
      }
    }
  }
}
