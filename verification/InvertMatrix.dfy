/** gf_invert_matrix: Gauss-Jordan elimination in place, with row swaps.

    The proof follows the equations rather than the matrices.  The pair (inMat, outMat) stands for
    the system inMat * x == outMat * y, and no row operation changes which (x, y) solve it.  It
    starts as a * x == y; if it ends as x == outMat * y then outMat undoes a on both sides, and if
    a column has no pivot then its combination of earlier columns is a vector that a sends to 0. */
module InvertMatrix {
  import opened GaloisField
  import opened GaloisTables
  import opened LinearAlgebra

  // ----- systems of equations and row operations

  ghost predicate Solves(m: seq<Byte>, o: seq<Byte>, n: nat, x: Vector, y: Vector)
    requires |x| == n && |y| == n
  {
    forall i {:trigger Row(m, n, i)} {:trigger Row(o, n, i)} :: 0 <= i < n ==>
      Dot(Row(m, n, i), x) == Dot(Row(o, n, i), y)
  }

  /** Both systems have the same solutions. */
  ghost predicate Equivalent(m: seq<Byte>, o: seq<Byte>, m': seq<Byte>, o': seq<Byte>, n: nat)
  {
    forall x: Vector, y: Vector :: |x| == n && |y| == n ==>
      (Solves(m, o, n, x, y) <==> Solves(m', o', n, x, y))
  }

  /** The rows of m' are those of m, except that row i of m' is r. */
  ghost predicate RowReplaced(m: seq<Byte>, m': seq<Byte>, n: nat, i: nat, r: Vector)
    requires i < n && |r| == n
  {
    forall l {:trigger Row(m', n, l)} :: 0 <= l < n ==>
      Row(m', n, l) == if l == i then r else Row(m, n, l)
  }

  ghost predicate RowsSwapped(m: seq<Byte>, m': seq<Byte>, n: nat, i: nat, j: nat)
    requires i < n && j < n
  {
    forall l {:trigger Row(m', n, l)} :: 0 <= l < n ==>
      Row(m', n, l) == if l == i then Row(m, n, j) else if l == j then Row(m, n, i) else Row(m, n, l)
  }

  lemma SwapKeepsSolutions(m: seq<Byte>, o: seq<Byte>, m': seq<Byte>, o': seq<Byte>, n: nat, i: nat, j: nat)
    requires i < n && j < n
    requires RowsSwapped(m, m', n, i, j) && RowsSwapped(o, o', n, i, j)
    ensures Equivalent(m, o, m', o', n)
  {
    hide Row, Dot;
    forall x: Vector, y: Vector | |x| == n && |y| == n
      ensures Solves(m, o, n, x, y) <==> Solves(m', o', n, x, y)
    {
      if Solves(m', o', n, x, y) {
        forall l | 0 <= l < n
          ensures Dot(Row(m, n, l), x) == Dot(Row(o, n, l), y)
        {
          var l' := if l == i then j else if l == j then i else l;
          assert Row(m', n, l') == Row(m, n, l);
          assert Row(o', n, l') == Row(o, n, l);
        }
      }
    }
  }

  /** Replacing row i keeps the solutions if, given the other rows, the old equation i and the
      new one say the same. */
  lemma ReplaceKeepsSolutions(m: seq<Byte>, o: seq<Byte>, m': seq<Byte>, o': seq<Byte>, n: nat, i: nat,
                              r: Vector, s: Vector, x: Vector, y: Vector)
    requires i < n && |r| == n && |s| == n && |x| == n && |y| == n
    requires RowReplaced(m, m', n, i, r) && RowReplaced(o, o', n, i, s)
    requires (forall l :: 0 <= l < n && l != i ==>
      Dot(Row(m, n, l), x) == Dot(Row(o, n, l), y)) ==>
      (Dot(Row(m, n, i), x) == Dot(Row(o, n, i), y) <==> Dot(r, x) == Dot(s, y))
    ensures Solves(m, o, n, x, y) <==> Solves(m', o', n, x, y)
  {
    hide Row, Dot;
    if Solves(m', o', n, x, y) {
      forall l | 0 <= l < n && l != i
        ensures Dot(Row(m, n, l), x) == Dot(Row(o, n, l), y)
      {
        assert Row(m', n, l) == Row(m, n, l);
        assert Row(o', n, l) == Row(o, n, l);
      }
      assert Row(m', n, i) == r;
      assert Row(o', n, i) == s;
    }
  }

  lemma MulCancels(t: Byte, a: Byte, b: Byte)
    requires t != 0 && GfMul(t, a) == GfMul(t, b)
    ensures a == b
  {
    hide GfMul, Add;
    MulDistributes(t, a, b);
    AddLaws(GfMul(t, a), GfMul(t, b), 0);
    MulZero(t, Add(a, b));
    AddLaws(a, b, 0);
  }

  lemma ScaleKeepsSolutions(m: seq<Byte>, o: seq<Byte>, m': seq<Byte>, o': seq<Byte>, n: nat, i: nat, t: Byte)
    requires i < n && t != 0
    requires RowReplaced(m, m', n, i, Scale(t, Row(m, n, i)))
    requires RowReplaced(o, o', n, i, Scale(t, Row(o, n, i)))
    ensures Equivalent(m, o, m', o', n)
  {
    hide *;
    forall x: Vector, y: Vector | |x| == n && |y| == n
      ensures Solves(m, o, n, x, y) <==> Solves(m', o', n, x, y)
    {
      var r, s := Row(m, n, i), Row(o, n, i);
      DotScale(t, r, x);
      DotScale(t, s, y);
      if Dot(Scale(t, r), x) == Dot(Scale(t, s), y) {
        MulCancels(t, Dot(r, x), Dot(s, y));
      }
      ReplaceKeepsSolutions(m, o, m', o', n, i, Scale(t, r), Scale(t, s), x, y);
    }
    EquivalentIf(m, o, m', o', n);
  }

  lemma EquivalentIf(m: seq<Byte>, o: seq<Byte>, m': seq<Byte>, o': seq<Byte>, n: nat)
    requires forall x: Vector, y: Vector :: |x| == n && |y| == n ==>
      (Solves(m, o, n, x, y) <==> Solves(m', o', n, x, y))
    ensures Equivalent(m, o, m', o', n)
  {
  }

  lemma DotScale(t: Byte, u: Vector, v: Vector)
    requires |u| == |v|
    ensures Dot(Scale(t, u), v) == GfMul(t, Dot(u, v))
  {
    DotUpToScale(t, u, v, |u|);
  }

  lemma DotAddScaled(t: Byte, u: Vector, w: Vector, v: Vector)
    requires |u| == |v| == |w|
    ensures Dot(AddVec(u, Scale(t, w)), v) == Add(Dot(u, v), GfMul(t, Dot(w, v)))
  {
    hide GfMul, Add;
    DotUpToAdd(u, Scale(t, w), v, |u|);
    DotUpToScale(t, w, v, |u|);
  }

  lemma AddCancels(a: Byte, b: Byte, c: Byte)
    ensures Add(a, c) == Add(b, c) <==> a == b
  {
  }

  lemma EliminateKeepsSolutions(m: seq<Byte>, o: seq<Byte>, m': seq<Byte>, o': seq<Byte>, n: nat, i: nat, j: nat,
                                t: Byte)
    requires i < n && j < n && i != j
    requires RowReplaced(m, m', n, j, AddVec(Row(m, n, j), Scale(t, Row(m, n, i))))
    requires RowReplaced(o, o', n, j, AddVec(Row(o, n, j), Scale(t, Row(o, n, i))))
    ensures Equivalent(m, o, m', o', n)
  {
    hide *;
    forall x: Vector, y: Vector | |x| == n && |y| == n
      ensures Solves(m, o, n, x, y) <==> Solves(m', o', n, x, y)
    {
      var r, s := AddVec(Row(m, n, j), Scale(t, Row(m, n, i))), AddVec(Row(o, n, j), Scale(t, Row(o, n, i)));
      DotAddScaled(t, Row(m, n, j), Row(m, n, i), x);
      DotAddScaled(t, Row(o, n, j), Row(o, n, i), y);
      AddCancels(Dot(Row(m, n, j), x), Dot(Row(o, n, j), y), GfMul(t, Dot(Row(m, n, i), x)));
      ReplaceKeepsSolutions(m, o, m', o', n, j, r, s, x, y);
    }
    EquivalentIf(m, o, m', o', n);
  }

  lemma EquivalentTransitive(m: seq<Byte>, o: seq<Byte>, m': seq<Byte>, o': seq<Byte>,
                             m'': seq<Byte>, o'': seq<Byte>, n: nat)
    requires Equivalent(m, o, m', o', n) && Equivalent(m', o', m'', o'', n)
    ensures Equivalent(m, o, m'', o'', n)
  {
    hide Solves;
  }

  // ----- the two outcomes

  lemma DotIdentityRow(m: seq<Byte>, n: nat, i: nat, x: Vector)
    requires IsIdentity(m, n) && i < n && |x| == n
    ensures Dot(Row(m, n, i), x) == x[i]
  {
    hide GfMul, Add;
    RowFits(n, n, i);
    assert Row(m, n, i) == Unit(n, i) by {
      forall j | 0 <= j < n ensures Row(m, n, i)[j] == Unit(n, i)[j] { }
    }
    DotUnit(x, i);
  }

  /** a system x == o * y that is equivalent to a * x == y makes o the inverse of a, as maps. */
  lemma SolvedSystemInverts(a: seq<Byte>, e: seq<Byte>, m: seq<Byte>, o: seq<Byte>, n: nat, x: Vector)
    requires |x| == n
    requires IsIdentity(e, n) && IsIdentity(m, n) && Equivalent(a, e, m, o, n)
    ensures MulVec(o, n, MulVec(a, n, x)) == x
    ensures MulVec(a, n, MulVec(o, n, x)) == x
  {
    hide Dot, Row;
    var y := MulVec(a, n, x);
    forall i | 0 <= i < n
      ensures Dot(Row(a, n, i), x) == Dot(Row(e, n, i), y)
    {
      DotIdentityRow(e, n, i, y);
      assert y[i] == Dot(Row(a, n, i), x);
    }
    assert Solves(a, e, n, x, y);
    assert Solves(m, o, n, x, y);
    forall i | 0 <= i < n ensures MulVec(o, n, y)[i] == x[i] { DotIdentityRow(m, n, i, x); }

    var z := MulVec(o, n, x);
    forall i | 0 <= i < n
      ensures Dot(Row(m, n, i), z) == Dot(Row(o, n, i), x)
    {
      DotIdentityRow(m, n, i, z);
      assert z[i] == Dot(Row(o, n, i), x);
    }
    assert Solves(m, o, n, z, x);
    assert Solves(a, e, n, z, x);
    forall i | 0 <= i < n ensures MulVec(a, n, z)[i] == x[i] { DotIdentityRow(e, n, i, x); }
  }

  lemma {:induction false} DotUpToTail(u: Vector, v: Vector, c: nat, n: nat)
    requires c <= n <= |u| && n <= |v|
    requires forall k :: c <= k < n ==> u[k] == 0 || v[k] == 0
    ensures DotUpTo(u, v, n) == DotUpTo(u, v, c)
  {
    hide GfMul, Add;
    if c < n {
      DotUpToTail(u, v, c, n - 1);
      MulZero(u[n - 1], v[n - 1]);
      AddLaws(DotUpTo(u, v, n - 1), 0, 0);
    }
  }

  /** The vector that a column without pivot gives: it has 1 at position i. */
  function PivotlessVector(m: seq<Byte>, n: nat, i: nat): (x: Vector)
    requires i < n
    ensures |x| == n
  {
    seq(n, c requires 0 <= c < n => if c < i then Row(m, n, c)[i] else Delta(c, i))
  }

  /** Column i is zero in rows i, ..., j-1. */
  ghost predicate NoPivot(m: seq<Byte>, n: nat, i: nat, j: nat)
    requires i < n
  {
    forall l :: i <= l < j ==> Row(m, n, l)[i] == 0
  }

  lemma PivotlessKernel(m: seq<Byte>, n: nat, i: nat, r: nat)
    requires i < n && r < n && UnitColumns(m, n, i)
    requires NoPivot(m, n, i, n)
    ensures Dot(Row(m, n, r), PivotlessVector(m, n, i)) == 0
  {
    hide GfMul, Add, Row;
    var u, x := Row(m, n, r), PivotlessVector(m, n, i);
    DotUpToTail(u, x, i + 1, n);
    DotUpToSingle(u, x, r, i);
    MulOne(u[i]);
    if r < i { MulOne(x[r]); }
    AddLaws(u[i], u[i], 0);
    AddLaws(0, 0, 0);
  }

  /** If some column has no pivot, the original matrix is singular. */
  lemma NoPivotMeansSingular(a: seq<Byte>, e: seq<Byte>, m: seq<Byte>, o: seq<Byte>, n: nat, i: nat)
    requires i < n && UnitColumns(m, n, i) && Equivalent(a, e, m, o, n)
    requires NoPivot(m, n, i, n)
    ensures !Nonsingular(a, n)
  {
    hide Row, Dot;
    var x := PivotlessVector(m, n, i);
    forall r | 0 <= r < n
      ensures Dot(Row(m, n, r), x) == Dot(Row(o, n, r), Zero(n)) && Dot(Row(e, n, r), Zero(n)) == 0
    {
      PivotlessKernel(m, n, i, r);
      DotZero(Row(o, n, r));
      DotZero(Row(e, n, r));
    }
    assert Solves(m, o, n, x, Zero(n));
    assert Solves(a, e, n, x, Zero(n));
    assert MulVec(a, n, x) == Zero(n);
    assert x[i] == 1;
  }

  lemma MulVecUnit(m: seq<Byte>, n: nat, j: nat)
    requires j < n
    ensures MulVec(m, n, Unit(n, j)) == Col(m, n, n, j)
  {
    hide Dot, Row;
    forall i | 0 <= i < n ensures MulVec(m, n, Unit(n, j))[i] == Col(m, n, n, j)[i] {
      DotUnit(Row(m, n, i), j);
    }
  }

  /** The outcome of a complete elimination. */
  lemma SolvedSystemIsInverse(a: seq<Byte>, e: seq<Byte>, m: seq<Byte>, o: seq<Byte>, n: nat)
    requires IsIdentity(e, n) && IsIdentity(m, n) && Equivalent(a, e, m, o, n)
    ensures Nonsingular(a, n) && IsInverse(a, o, n) && Undoes(a, o, n)
  {
    hide Dot, Row, IsIdentity, Equivalent;
    forall x: Vector | |x| == n && MulVec(a, n, x) == Zero(n) ensures x == Zero(n) {
      SolvedSystemInverts(a, e, m, o, n, x);
      forall i | 0 <= i < n ensures x[i] == 0 { DotZero(Row(o, n, i)); }
    }
    forall x: Vector | |x| == n
      ensures MulVec(o, n, MulVec(a, n, x)) == x && MulVec(a, n, MulVec(o, n, x)) == x
    {
      SolvedSystemInverts(a, e, m, o, n, x);
    }
    forall i, j | 0 <= i < n && 0 <= j < n
      ensures Dot(Row(a, n, i), Col(o, n, n, j)) == Delta(i, j)
      ensures Dot(Row(o, n, i), Col(a, n, n, j)) == Delta(i, j)
    {
      SolvedSystemInverts(a, e, m, o, n, Unit(n, j));
      MulVecUnit(o, n, j);
      MulVecUnit(a, n, j);
      assert Dot(Row(a, n, i), Col(o, n, n, j)) == MulVec(a, n, Col(o, n, n, j))[i];
      assert Dot(Row(o, n, i), Col(a, n, n, j)) == MulVec(o, n, Col(a, n, n, j))[i];
    }
  }

  // ----- row operations on flat arrays

  /** s' is s with the first k bytes of r written at offset ri. */
  ghost predicate Written(s: seq<Byte>, s': seq<Byte>, ri: int, k: int, r: Vector) {
    && |s'| == |s|
    && k <= |r|
    && forall p :: 0 <= p < |s| ==> s'[p] == if ri <= p < ri + k then r[p - ri] else s[p]
  }

  /** s' is s with the first k bytes of r written at offset ri and those of q at offset rj. */
  ghost predicate BothWritten(s: seq<Byte>, s': seq<Byte>, ri: int, r: Vector, rj: int, q: Vector, k: int) {
    && |s'| == |s|
    && k <= |r| && k <= |q|
    && forall p :: 0 <= p < |s| ==> s'[p] == BytesAt(s, ri, r, rj, q, k, p)
  }

  function BytesAt(s: seq<Byte>, ri: int, r: Vector, rj: int, q: Vector, k: int, p: int): Byte
    requires k <= |r| && k <= |q| && 0 <= p < |s|
  {
    if ri <= p < ri + k then r[p - ri] else if rj <= p < rj + k then q[p - rj] else s[p]
  }

  lemma RowsDisjoint(n: nat, i: nat, l: nat)
    requires i < n && l < n
    ensures 0 <= l * n && l * n + n <= n * n
    ensures i < l ==> i * n + n <= l * n
    ensures l < i ==> l * n + n <= i * n
  {
    RowFits(n, n, l);
    if i < l { RowsApart(n, i, l); }
    if l < i { RowsApart(n, l, i); }
  }

  lemma WrittenRow(s: seq<Byte>, s': seq<Byte>, n: nat, i: nat, r: Vector)
    requires n * n <= |s| && i < n && |r| == n && Written(s, s', i * n, n, r)
    ensures RowReplaced(s, s', n, i, r) && SameFrom(s, s', n * n)
  {
    RowsDisjoint(n, i, i);
    forall l | 0 <= l < n ensures Row(s', n, l) == if l == i then r else Row(s, n, l) {
      RowsDisjoint(n, i, l);
    }
  }

  lemma ExchangedRows(s: seq<Byte>, s': seq<Byte>, n: nat, i: nat, j: nat)
    requires n * n <= |s| && i < j < n
    requires BothWritten(s, s', i * n, Row(s, n, j), j * n, Row(s, n, i), n)
    ensures RowsSwapped(s, s', n, i, j) && SameFrom(s, s', n * n)
  {
    RowsDisjoint(n, i, j);
    RowsDisjoint(n, j, i);
    forall l | 0 <= l < n
      ensures Row(s', n, l) == if l == i then Row(s, n, j) else if l == j then Row(s, n, i) else Row(s, n, l)
    {
      RowsDisjoint(n, i, l);
      RowsDisjoint(n, j, l);
    }
  }

  lemma RowEntry(s: seq<Byte>, n: nat, i: nat, j: nat)
    requires n * n <= |s| && i < n && j < n
    ensures 0 <= i * n + j < n * n && Row(s, n, i)[j] == s[i * n + j]
  {
    RowFits(n, n, i);
  }

  /** Swap rows i, j. */
  method SwapRows(inMat: array<Byte>, outMat: array<Byte>, n: nat, i: nat, j: nat)
    requires inMat != outMat && n * n <= inMat.Length && n * n <= outMat.Length && i < j < n
    modifies inMat, outMat
    ensures RowsSwapped(old(inMat[..]), inMat[..], n, i, j) && RowsSwapped(old(outMat[..]), outMat[..], n, i, j)
    ensures SameFrom(old(inMat[..]), inMat[..], n * n) && SameFrom(old(outMat[..]), outMat[..], n * n)
  {
    hide Row;
    RowsDisjoint(n, i, j);
    RowsDisjoint(n, j, i);
    ghost var ri, rj := Row(inMat[..], n, i), Row(inMat[..], n, j);
    ghost var qi, qj := Row(outMat[..], n, i), Row(outMat[..], n, j);
    for k := 0 to n
      invariant BothWritten(old(inMat[..]), inMat[..], i * n, rj, j * n, ri, k)
      invariant BothWritten(old(outMat[..]), outMat[..], i * n, qj, j * n, qi, k)
    {
      RowEntry(old(inMat[..]), n, i, k); RowEntry(old(inMat[..]), n, j, k);
      RowEntry(old(outMat[..]), n, i, k); RowEntry(old(outMat[..]), n, j, k);
      var temp := inMat[i * n + k];
      inMat[i * n + k] := inMat[j * n + k];
      inMat[j * n + k] := temp;

      temp := outMat[i * n + k];
      outMat[i * n + k] := outMat[j * n + k];
      outMat[j * n + k] := temp;
    }
    ExchangedRows(old(inMat[..]), inMat[..], n, i, j);
    ExchangedRows(old(outMat[..]), outMat[..], n, i, j);
  }

  /** Scale row i by temp. */
  method ScaleRow(inMat: array<Byte>, outMat: array<Byte>, n: nat, i: nat, temp: Byte)
    requires inMat != outMat && n * n <= inMat.Length && n * n <= outMat.Length && i < n
    modifies inMat, outMat
    ensures RowReplaced(old(inMat[..]), inMat[..], n, i, Scale(temp, Row(old(inMat[..]), n, i)))
    ensures RowReplaced(old(outMat[..]), outMat[..], n, i, Scale(temp, Row(old(outMat[..]), n, i)))
    ensures SameFrom(old(inMat[..]), inMat[..], n * n) && SameFrom(old(outMat[..]), outMat[..], n * n)
  {
    hide Row, GfMul;
    RowsDisjoint(n, i, i);
    ghost var r, s := Row(inMat[..], n, i), Row(outMat[..], n, i);
    for j := 0 to n
      invariant Written(old(inMat[..]), inMat[..], i * n, j, Scale(temp, r))
      invariant Written(old(outMat[..]), outMat[..], i * n, j, Scale(temp, s))
    {
      RowEntry(old(inMat[..]), n, i, j);
      RowEntry(old(outMat[..]), n, i, j);
      MulCommutes(temp, r[j]);
      MulCommutes(temp, s[j]);
      inMat[i * n + j] := GfMul(inMat[i * n + j], temp);
      outMat[i * n + j] := GfMul(outMat[i * n + j], temp);
    }
    WrittenRow(old(inMat[..]), inMat[..], n, i, Scale(temp, r));
    WrittenRow(old(outMat[..]), outMat[..], n, i, Scale(temp, s));
  }

  /** Subtract temp times row i from row j. */
  method EliminateRow(inMat: array<Byte>, outMat: array<Byte>, n: nat, i: nat, j: nat, temp: Byte)
    requires inMat != outMat && n * n <= inMat.Length && n * n <= outMat.Length && i < n && j < n && i != j
    modifies inMat, outMat
    ensures RowReplaced(old(inMat[..]), inMat[..], n, j,
              AddVec(Row(old(inMat[..]), n, j), Scale(temp, Row(old(inMat[..]), n, i))))
    ensures RowReplaced(old(outMat[..]), outMat[..], n, j,
              AddVec(Row(old(outMat[..]), n, j), Scale(temp, Row(old(outMat[..]), n, i))))
    ensures SameFrom(old(inMat[..]), inMat[..], n * n) && SameFrom(old(outMat[..]), outMat[..], n * n)
  {
    hide Row, GfMul, Add;
    RowsDisjoint(n, i, j);
    RowsDisjoint(n, j, i);
    ghost var r := AddVec(Row(inMat[..], n, j), Scale(temp, Row(inMat[..], n, i)));
    ghost var s := AddVec(Row(outMat[..], n, j), Scale(temp, Row(outMat[..], n, i)));
    for k := 0 to n
      invariant Written(old(inMat[..]), inMat[..], j * n, k, r)
      invariant Written(old(outMat[..]), outMat[..], j * n, k, s)
    {
      RowEntry(old(inMat[..]), n, i, k); RowEntry(old(inMat[..]), n, j, k);
      RowEntry(old(outMat[..]), n, i, k); RowEntry(old(outMat[..]), n, j, k);
      outMat[j * n + k] := Add(outMat[j * n + k], GfMul(temp, outMat[i * n + k]));
      inMat[j * n + k] := Add(inMat[j * n + k], GfMul(temp, inMat[i * n + k]));
    }
    WrittenRow(old(inMat[..]), inMat[..], n, j, r);
    WrittenRow(old(outMat[..]), outMat[..], n, j, s);
  }

  // ----- gf_invert_matrix

  lemma SwapKeepsColumns(m: seq<Byte>, m': seq<Byte>, n: nat, i: nat, j: nat)
    requires i < j < n && UnitColumns(m, n, i) && RowsSwapped(m, m', n, i, j)
    ensures UnitColumns(m', n, i)
  {
    hide Row;
    forall l, c | 0 <= l < n && 0 <= c < i ensures Row(m', n, l)[c] == Delta(l, c) {
      assert Row(m, n, i)[c] == 0 && Row(m, n, j)[c] == 0;
    }
  }

  /** Columns below i are done, the pivot is 1, and column i is cleared in rows below j. */
  ghost predicate Clearing(m: seq<Byte>, n: nat, i: nat, j: nat)
    requires i < n
  {
    && UnitColumns(m, n, i)
    && Row(m, n, i)[i] == 1
    && forall l :: 0 <= l < j && l < n && l != i ==> Row(m, n, l)[i] == 0
  }

  lemma ScaleStartsClearing(m: seq<Byte>, m': seq<Byte>, n: nat, i: nat)
    requires i < n && UnitColumns(m, n, i) && Row(m, n, i)[i] != 0
    requires RowReplaced(m, m', n, i, Scale(GfInv(Row(m, n, i)[i]), Row(m, n, i)))
    ensures Clearing(m', n, i, 0)
  {
    hide Row, GfMul, GfInv;
    var p := Row(m, n, i)[i];
    InvIsReciprocal(p);
    MulCommutes(p, GfInv(p));
    forall l, c | 0 <= l < n && 0 <= c < i ensures Row(m', n, l)[c] == Delta(l, c) {
      MulZero(GfInv(p), 0);
      assert Row(m, n, l)[c] == Delta(l, c);
    }
  }

  lemma EliminateClears(m: seq<Byte>, m': seq<Byte>, n: nat, i: nat, j: nat)
    requires i < n && j < n && i != j && Clearing(m, n, i, j)
    requires RowReplaced(m, m', n, j, AddVec(Row(m, n, j), Scale(Row(m, n, j)[i], Row(m, n, i))))
    ensures Clearing(m', n, i, j + 1)
  {
    hide Row, GfMul, Add;
    var t := Row(m, n, j)[i];
    forall l, c | 0 <= l < n && 0 <= c < i ensures Row(m', n, l)[c] == Delta(l, c) {
      assert Row(m, n, l)[c] == Delta(l, c) && Row(m, n, i)[c] == 0;
      MulZero(t, 0);
      AddLaws(Row(m, n, j)[c], 0, 0);
    }
    MulOne(t);
    AddLaws(t, t, 0);
  }

  lemma ClearedColumn(m: seq<Byte>, n: nat, i: nat)
    requires i < n && Clearing(m, n, i, n)
    ensures UnitColumns(m, n, i + 1)
  {
    hide Row;
    forall l, c | 0 <= l < n && 0 <= c < i + 1 ensures Row(m, n, l)[c] == Delta(l, c) { }
  }

  lemma IdentityFromEntries(e: seq<Byte>, n: nat)
    requires n * n <= |e|
    requires forall p :: 0 <= p < n * n ==> e[p] == 0 || e[p] == 1
    requires forall p :: 0 <= p < n * n ==> (e[p] == 1 <==> exists i: nat :: i < n && i * n + i == p)
    ensures IsIdentity(e, n)
  {
    hide Row;
    forall i, j | 0 <= i < n && 0 <= j < n ensures Row(e, n, i)[j] == Delta(i, j) {
      RowEntry(e, n, i, j);
      if l: nat :| l < n && l * n + l == i * n + j {
        RowsDisjoint(n, i, l);
      }
    }
  }

  /** Sets the square matrix outMat to the identity. */
  method SetIdentity(outMat: array<Byte>, n: nat)
    requires n * n <= outMat.Length
    modifies outMat
    ensures IsIdentity(outMat[..], n) && SameFrom(old(outMat[..]), outMat[..], n * n)
  {
    for i := 0 to n * n
      invariant forall p :: 0 <= p < i ==> outMat[p] == 0
      invariant SameFrom(old(outMat[..]), outMat[..], n * n)
    {
      outMat[i] := 0;
    }
    for i := 0 to n
      invariant forall p :: 0 <= p < n * n ==> outMat[p] == 0 || outMat[p] == 1
      invariant forall p :: 0 <= p < n * n ==> (outMat[p] == 1 <==> exists l: nat :: l < i && l * n + l == p)
      invariant SameFrom(old(outMat[..]), outMat[..], n * n)
    {
      RowFits(n, n, i);
      outMat[i * n + i] := 1;
    }
    IdentityFromEntries(outMat[..], n);
  }

  /** Puts a nonzero entry at (i, i), swapping rows if necessary; found is false if column i has
      none on or below the diagonal. */
  method ChoosePivot(inMat: array<Byte>, outMat: array<Byte>, n: nat, i: nat) returns (found: bool)
    requires inMat != outMat && n * n <= inMat.Length && n * n <= outMat.Length
    requires i < n && UnitColumns(inMat[..], n, i)
    modifies inMat, outMat
    ensures Equivalent(old(inMat[..]), old(outMat[..]), inMat[..], outMat[..], n) && UnitColumns(inMat[..], n, i)
    ensures if found then Row(inMat[..], n, i)[i] != 0 else NoPivot(inMat[..], n, i, n)
    ensures SameFrom(old(inMat[..]), inMat[..], n * n) && SameFrom(old(outMat[..]), outMat[..], n * n)
  {
    hide Row, GfMul, GfInv, Add, Equivalent, UnitColumns, Clearing, RowReplaced, RowsSwapped;
    hide IsIdentity, IsInverse, Undoes, Nonsingular;
    EquivalentReflexive(inMat[..], outMat[..], n);
    RowEntry(inMat[..], n, i, i);
    if inMat[i * n + i] == 0 {
      // take the first row below that has a pivot
      var j := i + 1;
      while j < n
        invariant i < j <= n
        invariant inMat[..] == old(inMat[..]) && outMat[..] == old(outMat[..])
        invariant NoPivot(inMat[..], n, i, j)
      {
        RowEntry(inMat[..], n, j, i);
        if inMat[j * n + i] != 0 { break; }
        j := j + 1;
      }
      if j == n { return false; }
      RowEntry(inMat[..], n, j, i);
      SwapRows(inMat, outMat, n, i, j);
      SwapKeepsSolutions(old(inMat[..]), old(outMat[..]), inMat[..], outMat[..], n, i, j);
      SwapKeepsColumns(old(inMat[..]), inMat[..], n, i, j);
      SwappedPivot(old(inMat[..]), inMat[..], n, i, j);
    }
    return true;
  }

  /** Subtracts multiples of row i, whose pivot is 1, to clear the rest of column i. */
  method ClearColumn(inMat: array<Byte>, outMat: array<Byte>, n: nat, i: nat)
    requires inMat != outMat && n * n <= inMat.Length && n * n <= outMat.Length
    requires i < n && Clearing(inMat[..], n, i, 0)
    modifies inMat, outMat
    ensures Equivalent(old(inMat[..]), old(outMat[..]), inMat[..], outMat[..], n)
    ensures UnitColumns(inMat[..], n, i + 1)
    ensures SameFrom(old(inMat[..]), inMat[..], n * n) && SameFrom(old(outMat[..]), outMat[..], n * n)
  {
    hide Row, GfMul, GfInv, Add, Equivalent, UnitColumns, Clearing, RowReplaced, RowsSwapped;
    hide IsIdentity, IsInverse, Undoes, Nonsingular;
    ghost var a, e := inMat[..], outMat[..];
    EquivalentReflexive(a, e, n);
    for j := 0 to n
      invariant Equivalent(a, e, inMat[..], outMat[..], n) && Clearing(inMat[..], n, i, j)
      invariant SameFrom(a, inMat[..], n * n) && SameFrom(e, outMat[..], n * n)
    {
      if j == i {
        ClearingSkips(inMat[..], n, i);
        continue;
      }
      RowEntry(inMat[..], n, j, i);
      var temp := inMat[j * n + i];
      ghost var m, o := inMat[..], outMat[..];
      EliminateRow(inMat, outMat, n, i, j, temp);
      EliminateKeepsSolutions(m, o, inMat[..], outMat[..], n, i, j, temp);
      EquivalentTransitive(a, e, m, o, inMat[..], outMat[..], n);
      EliminateClears(m, inMat[..], n, i, j);
    }
    ClearedColumn(inMat[..], n, i);
  }

  /** Inverts the square matrix at the front of inMat.  Returns 0 exactly when that matrix is
      nonsingular; inMat is then the identity and outMat the inverse. */
  method GfInvertMatrix(inMat: array<Byte>, outMat: array<Byte>, n: nat) returns (ret: int)
    requires inMat != outMat && n * n <= inMat.Length && n * n <= outMat.Length
    modifies inMat, outMat
    ensures ret == 0 || ret == -1
    ensures ret == 0 <==> Nonsingular(old(inMat[..]), n)
    ensures ret == 0 ==> IsIdentity(inMat[..], n)
    ensures ret == 0 ==> IsInverse(old(inMat[..]), outMat[..], n) && Undoes(old(inMat[..]), outMat[..], n)
    ensures SameFrom(old(inMat[..]), inMat[..], n * n) && SameFrom(old(outMat[..]), outMat[..], n * n)
  {
    hide Row, GfMul, GfInv, Add, Equivalent, UnitColumns, Clearing, RowReplaced, RowsSwapped;
    hide IsIdentity, IsInverse, Undoes, Nonsingular;
    ghost var a := inMat[..];
    SetIdentity(outMat, n);
    ghost var e := outMat[..];
    EquivalentReflexive(a, e, n);

    for i := 0 to n
      invariant Equivalent(a, e, inMat[..], outMat[..], n) && UnitColumns(inMat[..], n, i)
      invariant SameFrom(a, inMat[..], n * n) && SameFrom(e, outMat[..], n * n)
    {
      ghost var m, o := inMat[..], outMat[..];
      var found := ChoosePivot(inMat, outMat, n, i);
      EquivalentTransitive(a, e, m, o, inMat[..], outMat[..], n);
      if !found {
        NoPivotMeansSingular(a, e, inMat[..], outMat[..], n, i);
        return -1;
      }

      RowEntry(inMat[..], n, i, i);
      var temp := GfInv(inMat[i * n + i]);
      InvIsReciprocal(inMat[i * n + i]);
      m, o := inMat[..], outMat[..];
      ScaleRow(inMat, outMat, n, i, temp);
      ScaleKeepsSolutions(m, o, inMat[..], outMat[..], n, i, temp);
      EquivalentTransitive(a, e, m, o, inMat[..], outMat[..], n);
      ScaleStartsClearing(m, inMat[..], n, i);

      m, o := inMat[..], outMat[..];
      ClearColumn(inMat, outMat, n, i);
      EquivalentTransitive(a, e, m, o, inMat[..], outMat[..], n);
    }
    ColumnsDone(inMat[..], n);
    SolvedSystemIsInverse(a, e, inMat[..], outMat[..], n);
    return 0;
  }

  lemma EquivalentReflexive(a: seq<Byte>, e: seq<Byte>, n: nat)
    ensures Equivalent(a, e, a, e, n) && UnitColumns(a, n, 0)
  {
  }

  lemma SwappedPivot(m: seq<Byte>, m': seq<Byte>, n: nat, i: nat, j: nat)
    requires i < j < n && RowsSwapped(m, m', n, i, j)
    ensures Row(m', n, i) == Row(m, n, j)
  {
  }

  lemma ClearingSkips(m: seq<Byte>, n: nat, i: nat)
    requires i < n && Clearing(m, n, i, i)
    ensures Clearing(m, n, i, i + 1)
  {
  }

  lemma ColumnsDone(m: seq<Byte>, n: nat)
    requires UnitColumns(m, n, n)
    ensures IsIdentity(m, n)
  {
  }
}
