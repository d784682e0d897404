/** Vectors and matrices over GF(2^8).  A matrix is stored the way erasure_code/ stores it: row
    after row in one flat sequence, so that entry (i, j) of a matrix with k columns is at k*i + j. */
module LinearAlgebra {
  import opened GaloisField
  import opened GaloisTables

  type Vector = seq<Byte>

  // ----- vectors

  /** The sum of u[0]*v[0], ..., u[n-1]*v[n-1]. */
  function DotUpTo(u: Vector, v: Vector, n: nat): Byte
    requires n <= |u| && n <= |v|
  {
    if n == 0 then 0 else Add(DotUpTo(u, v, n - 1), GfMul(u[n - 1], v[n - 1]))
  }

  function Dot(u: Vector, v: Vector): Byte
    requires |u| == |v|
  {
    DotUpTo(u, v, |u|)
  }

  function Zero(n: nat): Vector {
    seq(n, _ => 0)
  }

  function Delta(i: int, j: int): Byte {
    if i == j then 1 else 0
  }

  function Unit(n: nat, j: nat): Vector {
    seq(n, i => Delta(i, j))
  }

  function Scale(t: Byte, v: Vector): (w: Vector)
    ensures |w| == |v|
  {
    seq(|v|, i requires 0 <= i < |v| => GfMul(t, v[i]))
  }

  function AddVec(u: Vector, v: Vector): (w: Vector)
    requires |u| == |v|
    ensures |w| == |u|
  {
    seq(|u|, i requires 0 <= i < |u| => Add(u[i], v[i]))
  }

  lemma {:induction false} DotUpToZero(u: Vector, v: Vector, n: nat)
    requires n <= |u| && n <= |v|
    requires forall i :: 0 <= i < n ==> u[i] == 0 || v[i] == 0
    ensures DotUpTo(u, v, n) == 0
  {
    hide GfMul, Add;
    if n > 0 {
      DotUpToZero(u, v, n - 1);
      MulZero(u[n - 1], v[n - 1]);
      AddLaws(0, 0, 0);
    }
  }

  lemma {:induction false} DotUpToCommutes(u: Vector, v: Vector, n: nat)
    requires n <= |u| && n <= |v|
    ensures DotUpTo(u, v, n) == DotUpTo(v, u, n)
  {
    hide GfMul, Add;
    if n > 0 {
      DotUpToCommutes(u, v, n - 1);
      MulCommutes(u[n - 1], v[n - 1]);
    }
  }

  lemma {:induction false} DotUpToCongruence(u: Vector, v: Vector, u': Vector, v': Vector, n: nat)
    requires n <= |u| && n <= |v| && n <= |u'| && n <= |v'|
    requires forall i :: 0 <= i < n ==> u[i] == u'[i] && v[i] == v'[i]
    ensures DotUpTo(u, v, n) == DotUpTo(u', v', n)
  {
    hide GfMul, Add;
    if n > 0 { DotUpToCongruence(u, v, u', v', n - 1); }
  }

  lemma {:induction false} DotUpToScale(t: Byte, u: Vector, v: Vector, n: nat)
    requires n <= |u| && n <= |v|
    ensures DotUpTo(Scale(t, u), v, n) == GfMul(t, DotUpTo(u, v, n))
  {
    hide GfMul, Add;
    if n == 0 {
      MulZero(t, 0);
    } else {
      DotUpToScale(t, u, v, n - 1);
      MulAssociates(t, u[n - 1], v[n - 1]);
      MulDistributes(t, DotUpTo(u, v, n - 1), GfMul(u[n - 1], v[n - 1]));
    }
  }

  lemma {:induction false} DotUpToAdd(u: Vector, w: Vector, v: Vector, n: nat)
    requires |u| == |w| && n <= |u| && n <= |v|
    ensures DotUpTo(AddVec(u, w), v, n) == Add(DotUpTo(u, v, n), DotUpTo(w, v, n))
  {
    hide GfMul, Add;
    if n == 0 {
      AddLaws(0, 0, 0);
    } else {
      DotUpToAdd(u, w, v, n - 1);
      MulDistributes(v[n - 1], u[n - 1], w[n - 1]);
      AddSwap(DotUpTo(u, v, n - 1), DotUpTo(w, v, n - 1), GfMul(u[n - 1], v[n - 1]), GfMul(w[n - 1], v[n - 1]));
    }
  }

  /** A sum with at most one nonzero term, at position j. */
  lemma {:induction false} DotUpToSingle(u: Vector, v: Vector, j: nat, n: nat)
    requires n <= |u| && n <= |v| && j < |u| && j < |v|
    requires forall i :: 0 <= i < n && i != j ==> u[i] == 0 || v[i] == 0
    ensures DotUpTo(u, v, n) == if j < n then GfMul(u[j], v[j]) else 0
  {
    hide GfMul, Add;
    if n > 0 {
      DotUpToSingle(u, v, j, n - 1);
      AddLaws(GfMul(u[j], v[j]), 0, 0);
      AddLaws(0, 0, 0);
      if j != n - 1 { MulZero(u[n - 1], v[n - 1]); }
    }
  }

  lemma DotUnit(u: Vector, j: nat)
    requires j < |u|
    ensures Dot(u, Unit(|u|, j)) == u[j]
    ensures Dot(Unit(|u|, j), u) == u[j]
  {
    hide GfMul, Add;
    DotUpToSingle(u, Unit(|u|, j), j, |u|);
    DotUpToSingle(Unit(|u|, j), u, j, |u|);
    MulOne(u[j]);
  }

  lemma DotZero(u: Vector)
    ensures Dot(u, Zero(|u|)) == 0
  {
    hide GfMul, Add;
    DotUpToZero(u, Zero(|u|), |u|);
  }

  // ----- matrices

  /** Row i of a matrix with k columns.  A row that m does not hold reads as zero, so that
      statements about rows need no side conditions. */
  function Row(m: seq<Byte>, k: nat, i: nat): (r: Vector)
    ensures |r| == k
  {
    if i * k + k <= |m| then m[i * k..i * k + k] else Zero(k)
  }

  /** Column j of a matrix with n rows and k columns. */
  function Col(m: seq<Byte>, n: nat, k: nat, j: nat): (c: Vector)
    requires j < k
    ensures |c| == n
  {
    seq(n, i requires 0 <= i < n => Row(m, k, i)[j])
  }

  lemma RowFits(n: nat, k: nat, i: nat)
    requires i < n
    ensures i * k + k <= n * k
  {
    assert (i + 1) * k <= n * k;
  }

  /** s and s' agree from index c on. */
  ghost predicate SameFrom(s: seq<Byte>, s': seq<Byte>, c: int) {
    |s| == |s'| && forall p :: 0 <= p < |s| && c <= p ==> s[p] == s'[p]
  }

  lemma SameFromSelf(s: seq<Byte>, c: int)
    ensures SameFrom(s, s, c)
  {
  }

  /** Distinct rows occupy disjoint stretches. */
  lemma RowsApart(k: nat, i: nat, j: nat)
    requires i < j
    ensures i * k + k <= j * k
  {
    RowFits(j, k, i);
  }

  /** The product of a matrix with n rows and |x| columns and the vector x. */
  function MulVec(m: seq<Byte>, n: nat, x: Vector): (y: Vector)
    ensures |y| == n
    ensures forall i :: 0 <= i < n ==> y[i] == Dot(Row(m, |x|, i), x)
  {
    seq(n, i requires 0 <= i < n => Dot(Row(m, |x|, i), x))
  }

  /** m, a square matrix with n rows, sends no vector but zero to zero. */
  ghost predicate Nonsingular(m: seq<Byte>, n: nat)
  {
    forall x: Vector :: |x| == n && MulVec(m, n, x) == Zero(n) ==> x == Zero(n)
  }

  /** Columns 0, ..., c-1 of the square matrix m are those of the identity. */
  ghost predicate UnitColumns(m: seq<Byte>, n: nat, c: nat) {
    forall i, j {:trigger Row(m, n, i)[j]} :: 0 <= i < n && 0 <= j < c && j < n ==>
      Row(m, n, i)[j] == Delta(i, j)
  }

  ghost predicate IsIdentity(m: seq<Byte>, n: nat) {
    UnitColumns(m, n, n)
  }

  /** b is a two-sided inverse of a: both products have the entries of the identity. */
  ghost predicate IsInverse(a: seq<Byte>, b: seq<Byte>, n: nat)
  {
    forall i, j :: 0 <= i < n && 0 <= j < n ==>
      && Dot(Row(a, n, i), Col(b, n, n, j)) == Delta(i, j)
      && Dot(Row(b, n, i), Col(a, n, n, j)) == Delta(i, j)
  }

  /** b undoes a, and a undoes b, on every vector. */
  ghost predicate Undoes(a: seq<Byte>, b: seq<Byte>, n: nat) {
    forall x: Vector :: |x| == n ==> MulVec(b, n, MulVec(a, n, x)) == x && MulVec(a, n, MulVec(b, n, x)) == x
  }
}
