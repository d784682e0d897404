/** The Cauchy generator: any k rows of the matrix of gf_gen_cauchy1_matrix are nonsingular exactly
    when m <= 256 or there are no parity rows.

    The proof eliminates one parity row and one column at a time.  If x solves the equations
    sum x[c]/(i+c) = 0 for all i in rows, and i0 is one of the rows and j0 one of the columns, then
    z[c] = x[c]*(c+j0)/(i0+c) solves the equations of the other rows and vanishes at j0. */
module CauchyCode {
  import opened Arithmetic
  import opened GaloisField
  import opened GaloisTables
  import opened LinearAlgebra
  import opened Generators
  import opened RowChoice

  lemma LowByteInjective(i: nat, j: nat)
    requires i < 256 && j < 256
    ensures Add(LowByte(i), LowByte(j)) == 0 <==> i == j
  {
    hide Add, ByteOf;
    AddLaws(LowByte(i), LowByte(j), 0);
  }

  /** (p+d)/p + (q+d)/q == (p+q)*(d/(p*q)) */
  lemma PartialFractions(p: Byte, q: Byte, d: Byte)
    requires p != 0 && q != 0
    ensures Add(GfMul(Add(p, d), GfInv(p)), GfMul(Add(q, d), GfInv(q))) ==
            GfMul(Add(p, q), GfMul(GfInv(p), GfMul(d, GfInv(q))))
  {
    hide GfMul, GfInv, Add;
    var u, v := GfInv(p), GfInv(q);
    InvIsReciprocal(p);
    InvIsReciprocal(q);
    // left-hand side
    MulDistributes(u, p, d);
    MulDistributes(v, q, d);
    var du, dv := GfMul(d, u), GfMul(d, v);
    assert Add(GfMul(Add(p, d), u), GfMul(Add(q, d), v)) == Add(Add(1, du), Add(1, dv));
    AddSwap(1, du, 1, dv);
    AddLaws(1, 0, 0);
    AddLaws(Add(du, dv), 0, 0);
    // right-hand side
    var w := GfMul(u, dv);
    MulDistributes(w, p, q);
    MulAssociates(p, u, dv);
    MulOne(dv);
    MulCommutes(q, w);
    DvuQ(d, u, v, q);
    AddLaws(du, dv, 0);
  }

  lemma DvuQ(d: Byte, u: Byte, v: Byte, q: Byte)
    requires GfMul(q, v) == 1
    ensures GfMul(GfMul(u, GfMul(d, v)), q) == GfMul(d, u)
  {
    hide GfMul;
    MulAssociates(u, GfMul(d, v), q);
    MulAssociates(d, v, q);
    MulCommutes(v, q);
    MulOne(d);
    MulCommutes(u, d);
  }

  /** Multiplying the identity above by x/(i+c), with p = i+c, q = i0+c and d = c+j0. */
  lemma StepTerm(p: Byte, q: Byte, d: Byte, x: Byte)
    requires p != 0 && q != 0
    ensures Add(GfMul(Add(p, d), GfMul(GfInv(p), x)), GfMul(Add(q, d), GfMul(GfInv(q), x))) ==
            GfMul(Add(p, q), GfMul(GfInv(p), GfMul(x, GfMul(d, GfInv(q)))))
  {
    hide GfMul, GfInv, Add;
    var u, v := GfInv(p), GfInv(q);
    PartialFractions(p, q, d);
    MulAssociates(Add(p, d), u, x);
    MulAssociates(Add(q, d), v, x);
    MulDistributes(x, GfMul(Add(p, d), u), GfMul(Add(q, d), v));
    var w := GfMul(d, v);
    MulCommutes(x, w);
    MulAssociates(u, w, x);
    MulAssociates(Add(p, q), GfMul(u, w), x);
  }

  /** The next unknowns of the elimination. */
  function Eliminated(x: Vector, i0: nat, j0: nat): (z: Vector)
    ensures |z| == |x|
  {
    seq(|x|, c requires 0 <= c < |x| =>
      GfMul(x[c], GfMul(Add(LowByte(c), LowByte(j0)), GfInv(Add(LowByte(i0), LowByte(c))))))
  }

  lemma AddTelescopes(a: Byte, b: Byte, c: Byte)
    ensures Add(a, b) == Add(Add(a, c), Add(c, b))
  {
    hide Add;
    AddSwap(a, c, c, b);
    AddLaws(a, c, b);
    AddLaws(c, c, b);
    AddLaws(Add(a, c), c, b);
    AddLaws(c, b, 0);
    AddLaws(a, c, Add(c, b));
    AddLaws(b, 0, 0);
  }

  lemma {:induction false} EliminationStep(k: nat, i: nat, i0: nat, j0: nat, x: Vector, n: nat)
    requires |x| == k && n <= k <= i < 256 && k <= i0 < 256 && j0 < k
    ensures Add(GfMul(Add(LowByte(i), LowByte(j0)), DotUpTo(CauchyRow(k, i), x, n)),
                GfMul(Add(LowByte(i0), LowByte(j0)), DotUpTo(CauchyRow(k, i0), x, n)))
            == GfMul(Add(LowByte(i), LowByte(i0)), DotUpTo(CauchyRow(k, i), Eliminated(x, i0, j0), n))
  {
    hide GfMul, GfInv, Add, LowByte;
    var t, s := Add(LowByte(i), LowByte(j0)), Add(LowByte(i0), LowByte(j0));
    var u := Add(LowByte(i), LowByte(i0));
    if n == 0 {
      MulZero(t, 0); MulZero(s, 0); MulZero(u, 0);
      AddLaws(0, 0, 0);
    } else {
      EliminationStep(k, i, i0, j0, x, n - 1);
      var c := n - 1;
      var p, q, d := Add(LowByte(i), LowByte(c)), Add(LowByte(i0), LowByte(c)), Add(LowByte(c), LowByte(j0));
      LowByteInjective(i, c);
      LowByteInjective(i0, c);
      StepTerm(p, q, d, x[c]);
      AddTelescopes(LowByte(i), LowByte(j0), LowByte(c));
      AddTelescopes(LowByte(i0), LowByte(j0), LowByte(c));
      AddTelescopes(LowByte(i), LowByte(i0), LowByte(c));
      AddLaws(LowByte(c), LowByte(i0), 0);
      var a, b := DotUpTo(CauchyRow(k, i), x, c), DotUpTo(CauchyRow(k, i0), x, c);
      var ta, tb := GfMul(GfInv(p), x[c]), GfMul(GfInv(q), x[c]);
      MulDistributes(t, a, ta);
      MulDistributes(s, b, tb);
      AddSwap(GfMul(t, a), GfMul(t, ta), GfMul(s, b), GfMul(s, tb));
      MulDistributes(u, DotUpTo(CauchyRow(k, i), Eliminated(x, i0, j0), c), GfMul(GfInv(p), Eliminated(x, i0, j0)[c]));
    }
  }

  /** A square Cauchy system has only the zero solution. */
  lemma {:induction false} CauchySystem(k: nat, rows: set<nat>, columns: set<nat>, x: Vector)
    requires |x| == k && |rows| >= |columns| && SupportedBy(x, columns)
    requires forall i :: i in rows ==> k <= i < 256 && Dot(CauchyRow(k, i), x) == 0
    requires forall j :: j in columns ==> j < k
    ensures x == Zero(k)
    decreases |columns|
  {
    hide GfMul, GfInv, Add, LowByte, CauchyRow;
    if j0 :| j0 in columns {
      if rows == {} { assert false; }
      var i0 :| i0 in rows;
      var z := Eliminated(x, i0, j0);
      forall i | i in rows - {i0} ensures Dot(CauchyRow(k, i), z) == 0 {
        EliminationStep(k, i, i0, j0, x, k);
        LowByteInjective(i, i0);
        MulZero(Add(LowByte(i), LowByte(j0)), 0);
        MulZero(Add(LowByte(i0), LowByte(j0)), 0);
        AddLaws(0, 0, 0);
        MulZero(Add(LowByte(i), LowByte(i0)), Dot(CauchyRow(k, i), z));
      }
      forall c: nat | c < k
        ensures z[c] == 0 <==> x[c] == 0 || c == j0
      {
        EliminatedZero(x, i0, j0, c);
      }
      CauchySystem(k, rows - {i0}, columns - {j0}, z);
      LastColumn(k, i0, j0, x);
    }
  }

  lemma EliminatedZero(x: Vector, i0: nat, j0: nat, c: nat)
    requires |x| <= i0 < 256 && j0 < |x| && c < |x|
    ensures Eliminated(x, i0, j0)[c] == 0 <==> x[c] == 0 || c == j0
  {
    hide GfMul, GfInv, Add, LowByte;
    var d, q := Add(LowByte(c), LowByte(j0)), Add(LowByte(i0), LowByte(c));
    LowByteInjective(c, j0);
    LowByteInjective(i0, c);
    InvIsReciprocal(q);
    MulZero(d, GfInv(q));
    MulZero(x[c], GfMul(d, GfInv(q)));
  }

  /** With one unknown left, one equation makes it zero. */
  lemma LastColumn(k: nat, i0: nat, j0: nat, x: Vector)
    requires |x| == k <= i0 < 256 && j0 < k && Dot(CauchyRow(k, i0), x) == 0
    requires forall c: nat :: c < k && c != j0 ==> x[c] == 0
    ensures x == Zero(k)
  {
    hide GfMul, GfInv, Add, LowByte;
    DotUpToSingle(CauchyRow(k, i0), x, j0, k);
    LowByteInjective(i0, j0);
    InvIsReciprocal(Add(LowByte(i0), LowByte(j0)));
    MulZero(CauchyRow(k, i0)[j0], x[j0]);
  }

  // ----- the code

  lemma CauchyNonsingular(a: seq<Byte>, m: nat, k: nat, rows: set<nat>)
    requires IsCauchyMatrix(a, m, k) && k <= m && (m <= 256 || m == k)
    requires |rows| == k && forall r :: r in rows ==> r < m
    ensures RowsNonsingular(a, k, rows)
  {
    hide Row, Dot, CauchyRow;
    forall x: Vector | |x| == k && Kills(a, k, rows, x) ensures x == Zero(k) {
      IdentityRows(a, m, k);
      SupportIsFree(a, k, rows, x);
      AsManyFreeAsParity(k, rows);
      CauchySystem(k, ParityRows(k, rows), FreeColumns(k, rows), x);
    }
  }

  lemma IdentityRows(a: seq<Byte>, m: nat, k: nat)
    requires IsCauchyMatrix(a, m, k) && k <= m
    ensures forall i :: 0 <= i < k ==> Row(a, k, i) == Unit(k, i)
  {
  }

  lemma IdentityRow(k: nat, r: nat)
    requires r < k
    ensures CauchyRow(k, r) == Unit(k, r)
  {
  }

  lemma LowByteRepeats(i: nat)
    requires i >= 256
    ensures LowByte(i) == LowByte(i - 256)
  {
    assert i % 256 == (i - 256) % 256;
  }

  lemma CauchyParityEntry(k: nat, i: nat, j: nat)
    requires k <= i && j < k
    ensures CauchyRow(k, i)[j] == GfInv(Add(LowByte(i), LowByte(j)))
  {
    hide Add, GfInv, LowByte;
  }

  lemma SameLowByte(k: nat, i: nat)
    requires k <= i && 256 <= i < 256 + k
    ensures CauchyRow(k, i)[i - 256] == 0
  {
    hide *;
    LowByteRepeats(i);
    AddLaws(LowByte(i), LowByte(i - 256), 0);
    InvIsReciprocal(0);
    CauchyParityEntry(k, i, i - 256);
  }

  /** Beyond 256 rows some parity row has a zero entry: its indices differ by a multiple of 256. */
  lemma CauchySingular(a: seq<Byte>, m: nat, k: nat) returns (rows: set<nat>)
    requires IsCauchyMatrix(a, m, k) && 0 < k < m && m > 256
    ensures |rows| == k && (forall r :: r in rows ==> r < m) && !RowsNonsingular(a, k, rows)
  {
    hide Row, Dot, Add, GfInv, LowByte, CauchyRow;
    var i := if k < 256 then 256 else k;
    var j := i - 256;
    rows := Below(k) - {j} + {i};
    var x := Unit(k, j);
    forall r | r in rows ensures Dot(Row(a, k, r), x) == 0 {
      DotUnit(Row(a, k, r), j);
      if r == i {
        SameLowByte(k, i);
      } else {
        assert r < k && Row(a, k, r) == CauchyRow(k, r);
        IdentityRow(k, r);
      }
    }
    assert x[j] == 1;
  }

  /** Every k of the m rows are nonsingular exactly when m <= 256 or there is no parity. */
  lemma CauchyRecoversAnyLoss(a: seq<Byte>, m: nat, k: nat)
    requires IsCauchyMatrix(a, m, k) && 0 < k <= m
    ensures AnyRowsNonsingular(a, m, k) <==> m <= 256 || m == k
  {
    hide RowsNonsingular, IsCauchyMatrix;
    if m <= 256 || m == k {
      forall rows: set<nat> | |rows| == k && (forall r :: r in rows ==> r < m) ensures RowsNonsingular(a, k, rows) {
        CauchyNonsingular(a, m, k, rows);
      }
    } else {
      var rows := CauchySingular(a, m, k);
    }
  }
}
