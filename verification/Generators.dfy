/** Generator matrices: k identity rows above m - k parity rows of a Vandermonde or Cauchy matrix. */
module Generators {
  import opened Arithmetic
  import opened GaloisField
  import opened GaloisTables
  import opened LinearAlgebra

  // ----- the matrices

  /** Row i of the Vandermonde generator: the identity above, {2}^((i-k)*j) below. */
  function RsRow(k: nat, i: nat): (r: Vector)
    ensures |r| == k
  {
    if i < k then Unit(k, i) else seq(k, j requires 0 <= j < k => RsEntry(i - k, j))
  }

  /** Entry j of parity row n: the j-th power of the generator {2}^n. */
  function RsEntry(n: nat, j: nat): Byte {
    Power(n * j)
  }

  lemma RsFirst(n: nat)
    ensures RsEntry(n, 0) == 1
  {
    PowerZero();
  }

  lemma RsNext(n: nat, j: nat)
    ensures GfMul(RsEntry(n, j), Power(n)) == RsEntry(n, j + 1)
  {
    hide *;
    GfMulPower(n * j, n);
    RsEntries(n, j);
  }

  lemma RsEntries(n: nat, j: nat)
    ensures RsEntry(n, j) == Power(n * j) && RsEntry(n, j + 1) == Power(n * j + n)
  {
    hide Power;
    Distribute(j, 1, n);
  }

  /** The low byte of i, as a parameter of type unsigned char receives it. */
  function LowByte(i: nat): Byte {
    ByteOf(i % 256)
  }

  /** Row i of the Cauchy generator: the identity above, 1/(i + j) below. */
  function CauchyRow(k: nat, i: nat): (r: Vector)
    ensures |r| == k
  {
    if i < k then Unit(k, i) else seq(k, j requires 0 <= j < k => GfInv(Add(LowByte(i), LowByte(j))))
  }

  ghost predicate IsRsMatrix(a: seq<Byte>, m: nat, k: nat) {
    forall i :: 0 <= i < m ==> Row(a, k, i) == RsRow(k, i)
  }

  ghost predicate IsCauchyMatrix(a: seq<Byte>, m: nat, k: nat) {
    forall i :: 0 <= i < m ==> Row(a, k, i) == CauchyRow(k, i)
  }

  /** Entry (i, j) of a matrix with k columns is where the code stores it. */
  lemma EntryAt(a: seq<Byte>, m: nat, k: nat, i: nat, j: nat)
    requires m * k <= |a| && i < m && j < k
    ensures 0 <= k * i + j < |a| && Row(a, k, i)[j] == a[k * i + j]
  {
    RowFits(m, k, i);
    assert k * i == i * k;
  }

  /** Above, both are the identity. */
  lemma IdentityEntry(a: seq<Byte>, m: nat, k: nat, i: nat, j: nat)
    requires IsRsMatrix(a, m, k) || IsCauchyMatrix(a, m, k)
    requires m * k <= |a| && i < m && i < k && j < k
    ensures 0 <= k * i + j < |a| && a[k * i + j] == if i == j then 1 else 0
  {
    hide Row;
    EntryAt(a, m, k, i, j);
    assert Row(a, k, i) == Unit(k, i);
  }

  /** Below, the Cauchy matrix holds the reciprocals of the exclusive or of the low bytes of row and
      column, and 0 where these are the same. */
  lemma CauchyEntry(a: seq<Byte>, m: nat, k: nat, i: nat, j: nat, x: Byte, y: Byte)
    requires IsCauchyMatrix(a, m, k) && m * k <= |a| && k <= i < m && j < k
    requires x as int == i % 256 && y as int == j % 256
    ensures 0 <= k * i + j < |a|
    ensures if x == y then a[k * i + j] == 0 else PolyMul(a[k * i + j], x ^ y) == 1
  {
    hide Row, PolyMul, GfInv, LowByte;
    CauchyEntryIs(a, m, k, i, j);
    LowByteIs(i, x);
    LowByteIs(j, y);
    Reciprocal(x, y);
  }

  lemma CauchyEntryIs(a: seq<Byte>, m: nat, k: nat, i: nat, j: nat)
    requires IsCauchyMatrix(a, m, k) && m * k <= |a| && k <= i < m && j < k
    ensures 0 <= k * i + j < |a| && a[k * i + j] == GfInv(Add(LowByte(i), LowByte(j)))
  {
    hide Row, GfInv, LowByte, Add;
    EntryAt(a, m, k, i, j);
    assert Row(a, k, i) == CauchyRow(k, i);
  }

  lemma LowByteIs(i: nat, x: Byte)
    requires x as int == i % 256
    ensures LowByte(i) == x
  {
    hide ByteOf;
    SameInt(LowByte(i), x);
  }

  lemma Reciprocal(x: Byte, y: Byte)
    ensures if x == y then GfInv(Add(x, y)) == 0 else PolyMul(GfInv(Add(x, y)), x ^ y) == 1
  {
    hide PolyMul, GfMul, GfInv;
    var z := Add(x, y);
    AddLaws(x, y, 0);
    InvIsReciprocal(z);
    MulCommutes(z, GfInv(z));
    GfMulIsPolyMul(GfInv(z), z);
  }

  /** The first parity row of the other is all ones; in each the entries are powers of the second, which
      doubles from row to row. */
  lemma RsParityEntry(a: seq<Byte>, m: nat, k: nat, i: nat, j: nat)
    requires IsRsMatrix(a, m, k) && m * k <= |a| && k <= i < m && j < k
    ensures 0 <= k * i + j < |a|
    ensures i == k || j == 0 ==> a[k * i + j] == 1
    ensures j + 1 < k ==> k * i + j + 1 < |a| && a[k * i + j + 1] == PolyMul(a[k * i + j], a[k * i + 1])
    ensures i + 1 < m && j == 1 ==> k * (i + 1) + 1 < |a| && a[k * (i + 1) + 1] == PolyMul(2, a[k * i + 1])
  {
    hide Row, PolyMul, GfMul, Power;
    var n := i - k;
    RsEntryIs(a, m, k, i, j);
    PowerZero();
    assert (i == k || j == 0) ==> n * j == 0;
    if j + 1 < k {
      RsEntryIs(a, m, k, i, j + 1);
      RsEntryIs(a, m, k, i, 1);
      PowerMul(n * j, n * 1);
      assert n * (j + 1) == n * j + n * 1;
    }
    if i + 1 < m && j == 1 {
      RsEntryIs(a, m, k, i + 1, 1);
      PowerMul(1, n * 1);
      PowerOne();
    }
  }

  lemma RsEntryIs(a: seq<Byte>, m: nat, k: nat, i: nat, j: nat)
    requires IsRsMatrix(a, m, k) && m * k <= |a| && k <= i < m && j < k
    ensures 0 <= k * i + j < |a| && a[k * i + j] == Power((i - k) * j)
  {
    hide Row, Power;
    EntryAt(a, m, k, i, j);
    assert Row(a, k, i) == RsRow(k, i);
  }

  // ----- filling them in

  /** Writing entry (i, j) changes that entry of row i and no other row. */
  lemma EntryWritten(s: seq<Byte>, m: nat, k: nat, i: nat, j: nat, v: Byte)
    requires m * k <= |s| && i < m && j < k
    ensures 0 <= i * k + j < m * k
    ensures var s' := s[i * k + j := v];
      && SameFrom(s, s', m * k)
      && forall l :: 0 <= l < m ==> Row(s', k, l) == if l == i then Row(s, k, i)[j := v] else Row(s, k, l)
  {
    RowFits(m, k, i);
    var s' := s[i * k + j := v];
    forall l | 0 <= l < m ensures Row(s', k, l) == if l == i then Row(s, k, i)[j := v] else Row(s, k, l) {
      RowFits(m, k, l);
      if l < i { RowsApart(k, l, i); }
      if i < l { RowsApart(k, i, l); }
    }
  }

  /** Writes entry (i, j), which is at p; base is any state that agrees beyond the matrix. */
  method SetEntry(a: array<Byte>, m: nat, k: nat, i: nat, j: nat, p: nat, v: Byte, ghost base: seq<Byte>)
    requires m * k <= a.Length && i < m && j < k && p == i * k + j
    requires SameFrom(base, a[..], m * k)
    modifies a
    ensures SameFrom(base, a[..], m * k)
    ensures forall l :: 0 <= l < m ==>
      Row(a[..], k, l) == if l == i then Row(old(a[..]), k, i)[j := v] else Row(old(a[..]), k, l)
  {
    hide Row;
    EntryWritten(a[..], m, k, i, j, v);
    a[p] := v;
    assert a[..] == old(a[..])[p := v];
  }

  method Clear(a: array<Byte>, size: nat)
    requires size <= a.Length
    modifies a
    ensures forall p :: 0 <= p < size ==> a[p] == 0
    ensures SameFrom(old(a[..]), a[..], size)
  {
    for i := 0 to size
      invariant forall p :: 0 <= p < i ==> a[p] == 0
      invariant forall p :: size <= p < a.Length ==> a[p] == old(a[p])
    {
      a[i] := 0;
    }
  }

  /** Clears the matrix and puts the identity in its first k rows. */
  method IdentityOnTop(a: array<Byte>, m: nat, k: nat)
    requires k <= m && m * k <= a.Length
    modifies a
    ensures forall l :: 0 <= l < k ==> Row(a[..], k, l) == Unit(k, l)
    ensures SameFrom(old(a[..]), a[..], m * k)
  {
    hide Row, SameFrom;
    ghost var base := a[..];
    Clear(a, m * k);
    forall l | 0 <= l < k ensures Row(a[..], k, l) == Zero(k) { ZeroRow(a[..], m, k, l); }
    for i := 0 to k
      invariant forall l :: 0 <= l < k ==> Row(a[..], k, l) == if l < i then Unit(k, l) else Zero(k)
      invariant SameFrom(base, a[..], m * k)
    {
      SetEntry(a, m, k, i, i, i * k + i, 1, base);
      assert Row(a[..], k, i) == Unit(k, i);
    }
  }

  lemma ZeroRow(s: seq<Byte>, m: nat, k: nat, l: nat)
    requires m * k <= |s| && l < m && forall p :: 0 <= p < m * k ==> s[p] == 0
    ensures Row(s, k, l) == Zero(k)
  {
    RowFits(m, k, l);
  }

  /** The matrix of gf_gen_rs_matrix. */
  method GfGenRsMatrix(a: array<Byte>, m: nat, k: nat)
    requires k <= m && m * k <= a.Length
    modifies a
    ensures IsRsMatrix(a[..], m, k) && SameFrom(old(a[..]), a[..], m * k)
  {
    hide Row, SameFrom, Power, GfMul, RsEntry;
    ghost var base := a[..];
    IdentityOnTop(a, m, k);
    var gen: Byte := 1;
    PowerZero();
    for i := k to m
      invariant gen == Power(i - k)
      invariant forall l :: 0 <= l < i ==> Row(a[..], k, l) == RsRow(k, l)
      invariant SameFrom(base, a[..], m * k)
    {
      var p: Byte := 1;
      RsFirst(i - k);
      for j := 0 to k
        invariant p == RsEntry(i - k, j)
        invariant forall l :: 0 <= l < i ==> Row(a[..], k, l) == RsRow(k, l)
        invariant Row(a[..], k, i)[..j] == RsRow(k, i)[..j]
        invariant SameFrom(base, a[..], m * k)
      {
        SetEntry(a, m, k, i, j, i * k + j, p, base);
        RsNext(i - k, j);
        p := GfMul(p, gen);
      }
      assert Row(a[..], k, i) == RsRow(k, i);
      PowerOne();
      GfMulPower(i - k, 1);
      gen := GfMul(gen, 2);
    }
  }

  lemma PowerOne()
    ensures Power(1) == 2
  {
  }

  /** The matrix of gf_gen_cauchy1_matrix. */
  method GfGenCauchy1Matrix(a: array<Byte>, m: nat, k: nat)
    requires k <= m && m * k <= a.Length
    modifies a
    ensures IsCauchyMatrix(a[..], m, k) && SameFrom(old(a[..]), a[..], m * k)
  {
    hide Row, SameFrom, GfInv, LowByte, Add;
    ghost var base := a[..];
    IdentityOnTop(a, m, k);

    // parity rows: the reciprocals of i + j in the field
    var p := k * k;
    for i := k to m
      invariant p == i * k
      invariant forall l :: 0 <= l < i ==> Row(a[..], k, l) == CauchyRow(k, l)
      invariant SameFrom(base, a[..], m * k)
    {
      for j := 0 to k
        invariant p == i * k + j
        invariant forall l :: 0 <= l < i ==> Row(a[..], k, l) == CauchyRow(k, l)
        invariant Row(a[..], k, i)[..j] == CauchyRow(k, i)[..j]
        invariant SameFrom(base, a[..], m * k)
      {
        var v := GfInv(Add(LowByte(i), LowByte(j)));
        SetEntry(a, m, k, i, j, p, v, base);
        p := p + 1;
      }
      assert Row(a[..], k, i) == CauchyRow(k, i);
    }
  }
}
