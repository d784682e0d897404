/** Encoding: dot products and multiply-adds over buffers, driven by the tables of MulTables. */
module Encode {
  import opened GaloisField
  import opened GaloisTables
  import opened LinearAlgebra

  // ----- what the buffers and the tables hold

  /** The contents of a list of buffers. */
  ghost function Contents(bufs: seq<array<Byte>>): (c: seq<seq<Byte>>)
    reads bufs
    ensures |c| == |bufs| && forall j :: 0 <= j < |bufs| ==> c[j] == bufs[j][..]
  {
    seq(|bufs|, j requires 0 <= j < |bufs| reads bufs => bufs[j][..])
  }

  /** Byte i of every buffer. */
  ghost function Column(data: seq<seq<Byte>>, i: nat): (x: Vector)
    ensures |x| == |data|
    ensures forall j :: 0 <= j < |data| && i < |data[j]| ==> x[j] == data[j][i]
  {
    seq(|data|, j requires 0 <= j < |data| => if i < |data[j]| then data[j][i] else 0)
  }

  /** The coefficients of output l, for k sources, in the tables that start at v[base]. */
  ghost function Coefs(v: seq<Byte>, base: nat, k: nat, l: nat): (x: Vector)
    ensures |x| == k
    ensures forall j :: 0 <= j < k && base + j * 32 + l * k * 32 + 1 < |v| ==> x[j] == v[base + j * 32 + l * k * 32 + 1]
  {
    seq(k, j requires 0 <= j < k =>
      if base + j * 32 + l * k * 32 + 1 < |v| then v[base + j * 32 + l * k * 32 + 1] else 0)
  }

  /** out[..len] is the dot product of coefs with the columns of data. */
  ghost predicate IsDotProduct(coefs: Vector, data: seq<seq<Byte>>, out: seq<Byte>, len: nat)
    requires |coefs| == |data|
  {
    len <= |out| && forall i :: 0 <= i < len ==> out[i] == Dot(coefs, Column(data, i))
  }

  /** Every output is its dot product: out is the matrix product of the coefficients and data. */
  ghost predicate Encoded(v: seq<Byte>, base: nat, data: seq<seq<Byte>>, out: seq<seq<Byte>>, len: nat) {
    forall l :: 0 <= l < |out| ==> IsDotProduct(Coefs(v, base, |data|, l), data, out[l], len)
  }

  ghost predicate Buffers(bufs: seq<array<Byte>>, len: nat) {
    forall j :: 0 <= j < |bufs| ==> bufs[j].Length >= len
  }

  ghost predicate Distinct(bufs: seq<array<Byte>>) {
    forall i, j :: 0 <= i < j < |bufs| ==> bufs[i] != bufs[j]
  }

  // ----- dot products

  lemma CoefAt(v: seq<Byte>, base: nat, k: nat, l: nat, j: nat)
    requires j < k && base + k * 32 + l * k * 32 <= |v|
    ensures 0 <= base + j * 32 + l * k * 32 + 1 < |v|
    ensures Coefs(v, base, k, l)[j] == v[base + j * 32 + l * k * 32 + 1]
  {
  }

  /** One output byte: the innermost loop. */
  method DotProdByte(i: nat, vlen: nat, v: array<Byte>, base: nat, l: nat, src: seq<array<Byte>>) returns (s: Byte)
    requires |src| == vlen && Buffers(src, i + 1)
    requires base + vlen * 32 + l * vlen * 32 <= v.Length
    ensures s == Dot(Coefs(v[..], base, vlen, l), Column(Contents(src), i))
  {
    hide Add, GfMul, Coefs, Column;
    ghost var coefs, x := Coefs(v[..], base, vlen, l), Column(Contents(src), i);
    s := 0;
    for j := 0 to vlen
      invariant s == DotUpTo(coefs, x, j)
    {
      CoefAt(v[..], base, vlen, l, j);
      assert x[j] == src[j][..][i];
      var c := v[base + j * 32 + l * vlen * 32 + 1];
      MulCommutes(src[j][i], c);
      s := Add(s, GfMul(src[j][i], c));
    }
  }

  /** gf_vect_dot_prod_base; also the two inner loops of ec_encode_data_base. */
  method GfVectDotProdBase(len: nat, vlen: nat, v: array<Byte>, base: nat, l: nat, src: seq<array<Byte>>,
                           dest: array<Byte>)
    requires |src| == vlen && Buffers(src, len) && len <= dest.Length && dest !in src && dest != v
    requires base + vlen * 32 + l * vlen * 32 <= v.Length
    modifies dest
    ensures IsDotProduct(Coefs(v[..], base, vlen, l), Contents(src), dest[..], len)
    ensures dest[len..] == old(dest[len..])
  {
    hide Dot, Coefs, Column;
    ghost var coefs, data := Coefs(v[..], base, vlen, l), Contents(src);
    for i := 0 to len
      invariant Contents(src) == data && v[..] == old(v[..])
      invariant forall t :: 0 <= t < i ==> dest[t] == Dot(coefs, Column(data, t))
      invariant dest[len..] == old(dest[len..])
    {
      var s := DotProdByte(i, vlen, v, base, l, src);
      dest[i] := s;
    }
  }

  // ----- ec_encode_data_base

  /** Buffer l is not among the first n: the rest of the buffers beyond len is as it was. */
  ghost predicate TailsKept(before: seq<seq<Byte>>, after: seq<seq<Byte>>, len: nat) {
    && |before| == |after|
    && (forall l :: 0 <= l < |after| ==> |before[l]| == |after[l]|)
    && forall l :: 0 <= l < |after| && len <= |after[l]| ==> before[l][len..] == after[l][len..]
  }

  lemma TablesFit(k: nat, rows: nat, l: nat, base: nat, size: nat)
    requires l < rows && base + 32 * k * rows <= size
    ensures base + k * 32 + l * k * 32 <= size
  {
    RowFits(rows, k, l);
  }

  method EcEncodeDataBase(len: nat, srcs: nat, dests: nat, v: array<Byte>, base: nat, src: seq<array<Byte>>,
                          dest: seq<array<Byte>>)
    requires |src| == srcs && Buffers(src, len)
    requires |dest| == dests && Buffers(dest, len) && Distinct(dest)
    requires v !in dest && forall l :: 0 <= l < dests ==> dest[l] !in src
    requires base + 32 * srcs * dests <= v.Length
    modifies dest
    ensures Encoded(v[..], base, Contents(src), Contents(dest), len)
    ensures TailsKept(old(Contents(dest)), Contents(dest), len)
  {
    hide Coefs, IsDotProduct;
    ghost var data, before := Contents(src), Contents(dest);
    for l := 0 to dests
      invariant Contents(src) == data && v[..] == old(v[..])
      invariant forall q :: 0 <= q < l ==> IsDotProduct(Coefs(v[..], base, srcs, q), data, dest[q][..], len)
      invariant forall q :: l <= q < dests ==> dest[q][..] == before[q]
      invariant forall q :: 0 <= q < l ==> dest[q][len..] == before[q][len..]
    {
      TablesFit(srcs, dests, l, base, v.Length);
      label Before:
      GfVectDotProdBase(len, srcs, v, base, l, src, dest[l]);
      assert Contents(src) == data;
      assert forall q :: 0 <= q < l ==> dest[q][..] == old@Before(dest[q][..]);
    }
  }

  // ----- multiply-add and ec_encode_data_update_base

  /** out' is out plus c times data, in the first len bytes. */
  ghost predicate IsMultiplyAdd(c: Byte, data: seq<Byte>, out: seq<Byte>, out': seq<Byte>, len: nat) {
    && len <= |out| == |out'| && len <= |data|
    && (forall i :: 0 <= i < len ==> out'[i] == Add(out[i], GfMul(c, data[i])))
    && out'[len..] == out[len..]
  }

  /** Every output has the contribution of source vecI added. */
  ghost predicate Updated(v: seq<Byte>, base: nat, k: nat, vecI: nat, data: seq<Byte>,
                          out: seq<seq<Byte>>, out': seq<seq<Byte>>, len: nat)
    requires vecI < k
  {
    && |out| == |out'|
    && forall l :: 0 <= l < |out| ==> IsMultiplyAdd(Coefs(v, base, k, l)[vecI], data, out[l], out'[l], len)
  }

  /** gf_vect_mad_base; also the inner loop of ec_encode_data_update_base. */
  method GfVectMadBase(len: nat, vec: nat, vecI: nat, v: array<Byte>, base: nat, l: nat, src: array<Byte>,
                       dest: array<Byte>)
    requires vecI < vec && len <= src.Length && len <= dest.Length && dest != src && dest != v
    requires base + vec * 32 + l * vec * 32 <= v.Length
    modifies dest
    ensures IsMultiplyAdd(Coefs(v[..], base, vec, l)[vecI], src[..], old(dest[..]), dest[..], len)
  {
    hide Add, GfMul, Coefs;
    CoefAt(v[..], base, vec, l, vecI);
    ghost var c := Coefs(v[..], base, vec, l)[vecI];
    for i := 0 to len
      invariant forall t :: 0 <= t < i ==> dest[t] == Add(old(dest[t]), GfMul(c, src[t]))
      invariant forall t :: i <= t < dest.Length ==> dest[t] == old(dest[t])
    {
      var s := dest[i];
      MulCommutes(src[i], c);
      s := Add(s, GfMul(src[i], v[base + vecI * 32 + l * vec * 32 + 1]));
      dest[i] := s;
    }
  }

  method EcEncodeDataUpdateBase(len: nat, k: nat, rows: nat, vecI: nat, v: array<Byte>, base: nat, data: array<Byte>,
                                dest: seq<array<Byte>>)
    requires vecI < k && len <= data.Length
    requires |dest| == rows && Buffers(dest, len) && Distinct(dest) && v !in dest && data !in dest
    requires base + 32 * k * rows <= v.Length
    modifies dest
    ensures Updated(v[..], base, k, vecI, data[..], old(Contents(dest)), Contents(dest), len)
  {
    hide Coefs, IsMultiplyAdd;
    ghost var source, before := data[..], Contents(dest);
    for l := 0 to rows
      invariant data[..] == source && v[..] == old(v[..])
      invariant forall q :: 0 <= q < l ==>
        IsMultiplyAdd(Coefs(v[..], base, k, q)[vecI], source, before[q], dest[q][..], len)
      invariant forall q :: l <= q < rows ==> dest[q][..] == before[q]
    {
      TablesFit(k, rows, l, base, v.Length);
      label Before:
      GfVectMadBase(len, k, vecI, v, base, l, data, dest[l]);
      assert forall q :: 0 <= q < l ==> dest[q][..] == old@Before(dest[q][..]);
    }
  }

  // ----- encoding one source at a time

  /** x with the sources outside done set to zero. */
  ghost function Masked(x: Vector, done: set<nat>): (y: Vector)
    ensures |y| == |x|
  {
    seq(|x|, j requires 0 <= j < |x| => if j in done then x[j] else 0)
  }

  /** Including one more source adds its term. */
  lemma {:induction false} MaskedStep(coefs: Vector, x: Vector, done: set<nat>, j: nat, n: nat)
    requires n <= |coefs| == |x| && j < |x| && j !in done
    ensures DotUpTo(coefs, Masked(x, done + {j}), n) ==
            if j < n then Add(DotUpTo(coefs, Masked(x, done), n), GfMul(coefs[j], x[j]))
            else DotUpTo(coefs, Masked(x, done), n)
  {
    hide Add, GfMul;
    if n > 0 {
      MaskedStep(coefs, x, done, j, n - 1);
      var d, t := DotUpTo(coefs, Masked(x, done), n - 1), GfMul(coefs[n - 1], x[n - 1]);
      if j == n - 1 {
        MulZero(coefs[j], 0);
        AddLaws(d, 0, 0);
      } else if j < n - 1 {
        var u := GfMul(coefs[n - 1], Masked(x, done)[n - 1]);
        var w := GfMul(coefs[j], x[j]);
        AddLaws(d, w, u);
        AddLaws(w, u, 0);
        AddLaws(d, u, w);
      }
    }
  }

  /** The parity of the sources in done. */
  ghost predicate PartlyEncoded(v: seq<Byte>, base: nat, data: seq<seq<Byte>>, done: set<nat>, out: seq<seq<Byte>>,
                                len: nat) {
    && (forall l :: 0 <= l < |out| ==> len <= |out[l]|)
    && forall l, i :: 0 <= l < |out| && 0 <= i < len ==>
      out[l][i] == Dot(Coefs(v, base, |data|, l), Masked(Column(data, i), done))
  }

  lemma NothingEncoded(v: seq<Byte>, base: nat, data: seq<seq<Byte>>, out: seq<seq<Byte>>, len: nat)
    requires forall l :: 0 <= l < |out| ==> len <= |out[l]| && forall i :: 0 <= i < len ==> out[l][i] == 0
    ensures PartlyEncoded(v, base, data, {}, out, len)
  {
    hide Add, GfMul, Coefs, Column;
    forall l, i | 0 <= l < |out| && 0 <= i < len
      ensures out[l][i] == Dot(Coefs(v, base, |data|, l), Masked(Column(data, i), {}))
    {
      DotUpToZero(Coefs(v, base, |data|, l), Masked(Column(data, i), {}), |data|);
    }
  }

  lemma UpdateEncodes(v: seq<Byte>, base: nat, data: seq<seq<Byte>>, done: set<nat>, j: nat,
                      out: seq<seq<Byte>>, out': seq<seq<Byte>>, len: nat)
    requires j < |data| && j !in done && PartlyEncoded(v, base, data, done, out, len)
    requires Updated(v, base, |data|, j, data[j], out, out', len)
    ensures PartlyEncoded(v, base, data, done + {j}, out', len)
  {
    hide Add, GfMul, Coefs, Masked, Dot;
    forall l | 0 <= l < |out'| ensures len <= |out'[l]| {
      assert IsMultiplyAdd(Coefs(v, base, |data|, l)[j], data[j], out[l], out'[l], len);
    }
    forall l, i | 0 <= l < |out'| && 0 <= i < len
      ensures out'[l][i] == Dot(Coefs(v, base, |data|, l), Masked(Column(data, i), done + {j}))
    {
      assert IsMultiplyAdd(Coefs(v, base, |data|, l)[j], data[j], out[l], out'[l], len);
      MaskedDot(Coefs(v, base, |data|, l), Column(data, i), done, j);
    }
  }

  lemma MaskedDot(coefs: Vector, x: Vector, done: set<nat>, j: nat)
    requires |coefs| == |x| && j < |x| && j !in done
    ensures Dot(coefs, Masked(x, done + {j})) == Add(Dot(coefs, Masked(x, done)), GfMul(coefs[j], x[j]))
  {
    MaskedStep(coefs, x, done, j, |x|);
  }

  lemma EverythingEncoded(v: seq<Byte>, base: nat, data: seq<seq<Byte>>, done: set<nat>, out: seq<seq<Byte>>, len: nat)
    requires PartlyEncoded(v, base, data, done, out, len) && forall j :: 0 <= j < |data| ==> j in done
    ensures Encoded(v, base, data, out, len)
  {
    hide Dot, Coefs, Column;
    forall l, i | 0 <= l < |out| && 0 <= i < len ensures out[l][i] == Dot(Coefs(v, base, |data|, l), Column(data, i)) {
      assert Masked(Column(data, i), done) == Column(data, i);
    }
  }

  /** Encoding one source at a time, in any order, from cleared outputs, is encoding all at once. */
  method EncodeByUpdates(len: nat, k: nat, rows: nat, order: seq<nat>, v: array<Byte>, base: nat,
                         src: seq<array<Byte>>, dest: seq<array<Byte>>)
    requires |src| == k && Buffers(src, len)
    requires forall j :: 0 <= j < |order| ==> order[j] < k
    requires forall i, j :: 0 <= i < j < |order| ==> order[i] != order[j]
    requires forall j :: 0 <= j < k ==> j in order
    requires |dest| == rows && Buffers(dest, len) && Distinct(dest)
    requires v !in dest && forall l :: 0 <= l < rows ==> dest[l] !in src
    requires base + 32 * k * rows <= v.Length
    requires forall l, i :: 0 <= l < rows && 0 <= i < len ==> dest[l][i] == 0
    modifies dest
    ensures Encoded(v[..], base, Contents(src), Contents(dest), len)
  {
    hide PartlyEncoded, Updated, Encoded;
    ghost var data := Contents(src);
    ghost var done: set<nat> := {};
    NothingEncoded(v[..], base, data, Contents(dest), len);
    for i := 0 to |order|
      invariant Contents(src) == data && v[..] == old(v[..])
      invariant forall j :: j in done <==> j in order[..i]
      invariant PartlyEncoded(v[..], base, data, done, Contents(dest), len)
    {
      ghost var before := Contents(dest);
      EcEncodeDataUpdateBase(len, k, rows, order[i], v, base, src[order[i]], dest);
      UpdateEncodes(v[..], base, data, done, order[i], before, Contents(dest), len);
      assert order[..i + 1] == order[..i] + [order[i]];
      done := done + {order[i]};
    }
    assert order[..|order|] == order;
    EverythingEncoded(v[..], base, data, done, Contents(dest), len);
  }

  // ----- changing one source

  lemma {:induction false} DotReplaced(coefs: Vector, x: Vector, j: nat, b: Byte, n: nat)
    requires n <= |coefs| == |x| && j < |x|
    ensures DotUpTo(coefs, x[j := b], n) ==
            if j < n then Add(DotUpTo(coefs, x, n), GfMul(coefs[j], Add(x[j], b))) else DotUpTo(coefs, x, n)
  {
    hide Add, GfMul;
    if n > 0 {
      DotReplaced(coefs, x, j, b, n - 1);
      var d := DotUpTo(coefs, x, n - 1);
      if j == n - 1 {
        var t := GfMul(coefs[j], x[j]);
        MulDistributes(coefs[j], x[j], b);
        AddLaws(d, t, Add(t, GfMul(coefs[j], b)));
        AddLaws(t, t, GfMul(coefs[j], b));
        AddLaws(GfMul(coefs[j], b), 0, 0);
      } else if j < n - 1 {
        var u, w := GfMul(coefs[n - 1], x[n - 1]), GfMul(coefs[j], Add(x[j], b));
        AddLaws(d, w, u);
        AddLaws(w, u, 0);
        AddLaws(d, u, w);
      }
    }
  }

  /** Updating with old ^ new turns the parity of the old data into that of the new. */
  lemma DeltaUpdate(v: seq<Byte>, base: nat, data: seq<seq<Byte>>, j: nat, b: seq<Byte>, delta: seq<Byte>,
                    out: seq<seq<Byte>>, out': seq<seq<Byte>>, len: nat)
    requires j < |data| && len <= |data[j]| && len <= |b| && len <= |delta|
    requires forall i :: 0 <= i < len ==> delta[i] == Add(data[j][i], b[i])
    requires Encoded(v, base, data, out, len) && Updated(v, base, |data|, j, delta, out, out', len)
    ensures Encoded(v, base, data[j := b], out', len)
  {
    hide Add, GfMul, Coefs, Dot;
    forall l | 0 <= l < |out'| ensures IsDotProduct(Coefs(v, base, |data|, l), data[j := b], out'[l], len) {
      assert IsDotProduct(Coefs(v, base, |data|, l), data, out[l], len);
      assert IsMultiplyAdd(Coefs(v, base, |data|, l)[j], delta, out[l], out'[l], len);
      forall i | 0 <= i < len ensures out'[l][i] == Dot(Coefs(v, base, |data|, l), Column(data[j := b], i)) {
        assert Column(data[j := b], i) == Column(data, i)[j := b[i]];
        DotOfReplaced(Coefs(v, base, |data|, l), Column(data, i), j, b[i]);
      }
    }
  }

  lemma DotOfReplaced(coefs: Vector, x: Vector, j: nat, b: Byte)
    requires |coefs| == |x| && j < |x|
    ensures Dot(coefs, x[j := b]) == Add(Dot(coefs, x), GfMul(coefs[j], Add(x[j], b)))
  {
    DotReplaced(coefs, x, j, b, |x|);
  }
}
