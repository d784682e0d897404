/** The Vandermonde generator of gf_gen_rs_matrix: for exactly which sizes any k rows are nonsingular.

    The interface documents five sufficient conditions.  Two of them, k <= 3 and m - k <= 3, hold only
    with a further bound, because {2}^0 == {2}^255; beyond the five there is nothing. */
module VandermondeCode {
  import opened GaloisField
  import opened GaloisTables
  import opened Generators
  import opened LinearAlgebra
  import opened PowerSystems
  import opened RankSymmetry
  import opened RowChoice

  // ----- choices of rows as systems of powers

  lemma RsIdentityRows(a: seq<Byte>, m: nat, k: nat)
    requires IsRsMatrix(a, m, k) && k <= m
    ensures forall i :: 0 <= i < k ==> Row(a, k, i) == Unit(k, i)
    ensures forall e: nat :: k + e < m ==> Row(a, k, k + e) == PowerRow(k, e)
  {
    hide Row, Power;
    forall e: nat | k + e < m ensures Row(a, k, k + e) == PowerRow(k, e) {
      assert Row(a, k, k + e) == RsRow(k, k + e);
    }
  }

  /** The chosen rows are nonsingular exactly when the parity rows among them have only the zero
      solution on the columns that no identity row fixes. */
  lemma RowsAreSystem(a: seq<Byte>, m: nat, k: nat, rows: set<nat>)
    requires IsRsMatrix(a, m, k) && k <= m && forall r :: r in rows ==> r < m
    ensures RowsNonsingular(a, k, rows) <==> OnlyZero(k, ParityNumbers(k, rows), FreeColumns(k, rows))
  {
    hide Row, Dot, PowerRow, IsRsMatrix, ParityNumbers, FreeColumns;
    RsIdentityRows(a, m, k);
    forall x: Vector | |x| == k
      ensures Kills(a, k, rows, x) <==> Solution(k, ParityNumbers(k, rows), FreeColumns(k, rows), x)
    {
      KillsIsSolution(a, m, k, rows, x);
    }
  }

  lemma KillsIsSolution(a: seq<Byte>, m: nat, k: nat, rows: set<nat>, x: Vector)
    requires k <= m && |x| == k && forall r :: r in rows ==> r < m
    requires forall i :: 0 <= i < k ==> Row(a, k, i) == Unit(k, i)
    requires forall e: nat :: k + e < m ==> Row(a, k, k + e) == PowerRow(k, e)
    ensures Kills(a, k, rows, x) <==> Solution(k, ParityNumbers(k, rows), FreeColumns(k, rows), x)
  {
    hide Row, Dot, PowerRow, Unit;
    if Kills(a, k, rows, x) {
      SupportIsFree(a, k, rows, x);
      forall e | e in ParityNumbers(k, rows) ensures Dot(PowerRow(k, e), x) == 0 {
        assert Row(a, k, k + e) == PowerRow(k, e);
      }
    }
    if Solution(k, ParityNumbers(k, rows), FreeColumns(k, rows), x) {
      forall r | r in rows ensures Dot(Row(a, k, r), x) == 0 {
        if r < k {
          DotUnit(x, r);
        } else {
          assert Row(a, k, k + (r - k)) == PowerRow(k, r - k);
        }
      }
    }
  }

  /** Every square system of p rows and k columns has only the zero solution. */
  ghost predicate AllSystems(k: nat, p: nat) {
    forall rows: set<nat>, columns: set<nat> :: SquareSystem(k, p, rows, columns) ==> OnlyZero(k, rows, columns)
  }

  ghost predicate SquareSystem(k: nat, p: nat, rows: set<nat>, columns: set<nat>) {
    && |rows| == |columns|
    && (forall r :: r in rows ==> r < p) && forall c :: c in columns ==> c < k
  }

  lemma AnyRowsIfSystems(a: seq<Byte>, m: nat, k: nat)
    requires IsRsMatrix(a, m, k) && k <= m && AllSystems(k, m - k)
    ensures AnyRowsNonsingular(a, m, k)
  {
    hide RowsNonsingular, OnlyZero, IsRsMatrix, ParityNumbers, FreeColumns;
    forall rows: set<nat> | |rows| == k && (forall r :: r in rows ==> r < m) ensures RowsNonsingular(a, k, rows) {
      RowsAreSystem(a, m, k, rows);
      ParityCount(k, rows);
      assert SquareSystem(k, m - k, ParityNumbers(k, rows), FreeColumns(k, rows));
    }
  }

  lemma SystemsIfAnyRows(a: seq<Byte>, m: nat, k: nat, rows: set<nat>, columns: set<nat>)
    requires IsRsMatrix(a, m, k) && k <= m && AnyRowsNonsingular(a, m, k) && SquareSystem(k, m - k, rows, columns)
    ensures OnlyZero(k, rows, columns)
  {
    hide RowsNonsingular, OnlyZero, IsRsMatrix, ParityNumbers, Raised;
    var all := RowsOf(k, rows, columns);
    RaisedSize(k, rows);
    RowsOfSize(k, rows, columns);
    assert ParityNumbers(k, all) == rows;
    assert FreeColumns(k, all) == columns;
    RowsAreSystem(a, m, k, all);
  }

  // ----- sizes that are safe

  /** The sizes of a block of p parity rows and k sources for which every loss can be undone. */
  predicate RsSafe(k: nat, p: nat) {
    || p <= 1 || k <= 1
    || (p <= 3 && k <= 255) || (k <= 3 && p <= 255)
    || (p == 4 && k <= 21) || (k == 4 && p <= 21)
    || (p == 5 && k == 5)
  }

  /** Those that the proofs below cover without exchanging rows and columns. */
  predicate Covered(k: nat, p: nat) {
    p <= 1 || (p <= 3 && k <= 255) || (p == 4 && k <= 21) || (p == 5 && k == 5)
  }

  lemma NoRows(k: nat, columns: set<nat>)
    requires |columns| == 0
    ensures OnlyZero(k, {}, columns)
  {
    assert columns == {};
  }

  lemma MissingOne(rows: set<nat>, p: nat) returns (t: nat)
    requires |rows| == p - 1 >= 0 && forall r :: r in rows ==> r < p
    ensures t < p && forall e: nat :: e < p && e != t ==> e in rows
  {
    var rest := Below(p) - rows;
    assert rows <= Below(p) && |rest| == 1;
    t :| t in rest;
    forall e: nat | e < p && e != t ensures e in rows {
      if e !in rows { SingleElement(rest, e, t); }
    }
  }

  lemma MissingTwo(rows: set<nat>, p: nat) returns (t: nat, w: nat)
    requires |rows| == p - 2 >= 0 && forall r :: r in rows ==> r < p
    ensures t < w < p && forall e: nat :: e < p && e != t && e != w ==> e in rows
  {
    var rest := Below(p) - rows;
    assert rows <= Below(p) && |rest| == 2;
    t, w := TwoElements(rest);
    forall e: nat | e < p && e != t && e != w ensures e in rows {
      assert e in rows || e in rest;
    }
  }

  lemma TwoElements(s: set<nat>) returns (t: nat, w: nat)
    requires |s| == 2
    ensures t < w && t in s && w in s && s == {t, w}
  {
    t :| t in s;
    assert |s - {t}| == 1;
    w :| w in s - {t};
    assert |s - {t} - {w}| == 0;
    assert s == {t, w};
    if w < t { t, w := w, t; }
  }

  lemma ThreeElements(s: set<nat>) returns (c: nat, d: nat, e: nat)
    requires |s| == 3
    ensures c < d < e && s == {c, d, e}
  {
    var f :| f in s;
    assert |s - {f}| == 2;
    c, d := TwoElements(s - {f});
    assert s == {c, d, f};
    if f < c { c, d, e := f, c, d; } else if f < d { c, d, e := c, f, d; } else { e := f; }
  }

  // ----- the coefficients for three columns

  lemma PairCoefs(c: nat, d: nat)
    ensures Coef([c, d], 0) == Power(c + d) && Coef([c, d], 1) == Add(Power(c), Power(d))
    ensures Coef([c, d], 2) == 1 && Coef([c, d], 3) == 0
  {
    hide GfMul, Add, Power, Coef;
    NoCoefs();
    assert [] + [c] == [c] && [c] + [d] == [c, d];
    CoefOfMore([], c, 0);
    MulOne(Power(c));
    AddLaws(Power(c), 0, 0);
    LeadingCoef([c], 1);
    CoefOfMore([c], d, 0);
    GfMulPower(d, c);
    AddLaws(Power(c + d), 0, 0);
    CoefOfMore([c], d, 1);
    MulOne(Power(d));
    LeadingCoef([c, d], 2);
    LeadingCoef([c, d], 3);
  }

  lemma NoCoefs()
    ensures Coef([], 0) == 1
  {
  }

  lemma TripleCoefs(c: nat, d: nat, e: nat)
    ensures Coef([c, d, e], 0) == Power(c + d + e)
    ensures Coef([c, d, e], 1) == Add(Power(c + d), Add(Power(c + e), Power(d + e)))
    ensures Coef([c, d, e], 2) == Add(Power(c), Add(Power(d), Power(e)))
    ensures Coef([c, d, e], 3) == 1
  {
    hide GfMul, Add, Power, Coef;
    assert [c, d] + [e] == [c, d, e];
    PairCoefs(c, d);
    CoefOfMore([c, d], e, 0);
    GfMulPower(e, c + d);
    AddLaws(Power(c + d + e), 0, 0);
    CoefOfMore([c, d], e, 1);
    MulDistributes(Power(e), Power(c), Power(d));
    GfMulPower(e, c);
    GfMulPower(e, d);
    CoefOfMore([c, d], e, 2);
    MulOne(Power(e));
    AddLaws(Power(c), Power(d), Power(e));
    LeadingCoef([c, d, e], 3);
  }

  // ----- four parity rows

  lemma TwentyPowers()
    ensures Power(0) == 1 && Power(1) == 2 && Power(2) == 4 && Power(3) == 8 && Power(4) == 16 && Power(5) == 32
    ensures Power(6) == 64 && Power(7) == 128 && Power(8) == 29 && Power(9) == 58 && Power(10) == 116
    ensures Power(11) == 232
    ensures Power(12) == 205 && Power(13) == 135 && Power(14) == 19 && Power(15) == 38 && Power(16) == 76
    ensures Power(17) == 152 && Power(18) == 45 && Power(19) == 90 && Power(20) == 180 && Power(21) == 117
  {
    assert Power(1) == 2; assert Power(2) == 4; assert Power(3) == 8; assert Power(4) == 16; assert Power(5) == 32;
    assert Power(6) == 64; assert Power(7) == 128; assert Power(8) == 29; assert Power(9) == 58;
    assert Power(10) == 116; assert Power(11) == 232; assert Power(12) == 205; assert Power(13) == 135;
    assert Power(14) == 19; assert Power(15) == 38; assert Power(16) == 76; assert Power(17) == 152;
    assert Power(18) == 45; assert Power(19) == 90; assert Power(20) == 180;
  }

  /** No two of {2}^1, ..., {2}^20 differ in the lowest bit alone. */
  lemma NoThreeSum(i: nat, j: nat)
    requires 0 < i < j <= 20
    ensures Add(1, Add(Power(i), Power(j))) != 0
  {
    TwentyPowers();
    hide Power;
    assert i == 1 || i == 2 || i == 3 || i == 4 || i == 5 || i == 6 || i == 7 || i == 8 || i == 9 || i == 10 ||
      i == 11 || i == 12 || i == 13 || i == 14 || i == 15 || i == 16 || i == 17 || i == 18 || i == 19;
    assert j == 2 || j == 3 || j == 4 || j == 5 || j == 6 || j == 7 || j == 8 || j == 9 || j == 10 || j == 11 ||
      j == 12 || j == 13 || j == 14 || j == 15 || j == 16 || j == 17 || j == 18 || j == 19 || j == 20;
  }

  /** {2}^c * (1 + {2}^i + {2}^j) */
  lemma ThreePowers(c: nat, i: nat, j: nat)
    requires 0 < i < j <= 20
    ensures Add(Power(c), Add(Power(c + i), Power(c + j))) != 0
  {
    hide GfMul, Add, Power;
    NoThreeSum(i, j);
    MulDistributes(Power(c), 1, Add(Power(i), Power(j)));
    MulDistributes(Power(c), Power(i), Power(j));
    MulOne(Power(c));
    GfMulPower(c, i);
    GfMulPower(c, j);
    MulZero(Power(c), Add(1, Add(Power(i), Power(j))));
  }

  lemma TripleCoefsNonzero(c: nat, d: nat, e: nat, t: nat)
    requires c < d < e <= c + 20 && t <= 3
    ensures Coef([c, d, e], t) != 0
  {
    hide GfMul, Add, Power, Coef;
    TripleCoefs(c, d, e);
    ThreePowers(c, d - c, e - c);
    ThreePowers(c + d, e - d, e - c);
    assert c + (d - c) == d && c + (e - c) == e && c + d + (e - d) == c + e && c + d + (e - c) == d + e;
    assert t == 0 || t == 1 || t == 2 || t == 3;
  }

  lemma ThreeOfFour(k: nat, rows: set<nat>, columns: set<nat>)
    requires SquareSystem(k, 4, rows, columns) && k <= 21 && |columns| == 3
    ensures OnlyZero(k, rows, columns)
  {
    hide Coef, Power;
    var c, d, e := ThreeElements(columns);
    var t := MissingOne(rows, 4);
    TripleCoefsNonzero(c, d, e, t);
    ColumnsDistinct(columns, k);
    AllButOne(k, [c, d, e], rows, columns, t);
  }

  // ----- five parity rows, five sources

  /** The products that tell two missing rows apart, from the coefficients p, q, r, 1. */
  predicate Apart(p: Byte, q: Byte, r: Byte) {
    && p != 0 && q != 0 && r != 0
    && GfMul(q, q) != GfMul(r, p) && GfMul(q, r) != p && GfMul(r, r) != q
  }

  lemma IndependentIf(list: seq<nat>)
    requires |list| == 3 && Apart(Coef(list, 0), Coef(list, 1), Coef(list, 2))
    ensures Independent(list)
  {
    hide Coef, GfMul;
    LeadingCoef(list, 3);
    var p, q, r := Coef(list, 0), Coef(list, 1), Coef(list, 2);
    forall t: nat, w: nat | t < w <= 4
      ensures GfMul(CoefAt(list, 0, t, 4), CoefAt(list, 1, w, 4)) != GfMul(CoefAt(list, 0, w, 4), CoefAt(list, 1, t, 4))
    {
      MulZero(CoefAt(list, 0, t, 4), CoefAt(list, 1, w, 4));
      MulZero(CoefAt(list, 0, w, 4), CoefAt(list, 1, t, 4));
      MulOne(p);
      MulOne(q);
      MulOne(r);
      MulCommutes(p, r);
      assert t == 0 || t == 1 || t == 2 || t == 3;
      assert w == 1 || w == 2 || w == 3 || w == 4;
    }
  }

  lemma ApartBy(p: Byte, q: Byte, r: Byte)
    requires p != 0 && q != 0 && r != 0
    requires PolyMul(q, q) != PolyMul(r, p) && PolyMul(q, r) != p && PolyMul(r, r) != q
    ensures Apart(p, q, r)
  {
    hide GfMul, PolyMul;
    GfMulIsPolyMul(q, q);
    GfMulIsPolyMul(r, p);
    GfMulIsPolyMul(q, r);
    GfMulIsPolyMul(r, r);
  }

  predicate TripleApart(c: nat, d: nat, e: nat) {
    Apart(Coef([c, d, e], 0), Coef([c, d, e], 1), Coef([c, d, e], 2))
  }

  /** The ten choices of three columns out of five. */
  lemma TriplesApart(c: nat, d: nat, e: nat)
    requires c < d < e < 5
    ensures TripleApart(c, d, e)
  {
    hide *;
    Apart012();
    Apart013();
    Apart014();
    Apart023();
    Apart024();
    Apart034();
    Apart123();
    Apart124();
    Apart134();
    Apart234();
  }

  lemma Apart012()
    ensures TripleApart(0, 1, 2)
  {
    hide Power, Coef, Apart;
    TwentyPowers();
    TripleCoefs(0, 1, 2);
    ApartBy(8, 14, 7);
  }

  lemma Apart013()
    ensures TripleApart(0, 1, 3)
  {
    hide Power, Coef, Apart;
    TwentyPowers();
    TripleCoefs(0, 1, 3);
    ApartBy(16, 26, 11);
  }

  lemma Apart014()
    ensures TripleApart(0, 1, 4)
  {
    hide Power, Coef, Apart;
    TwentyPowers();
    TripleCoefs(0, 1, 4);
    ApartBy(32, 50, 19);
  }

  lemma Apart023()
    ensures TripleApart(0, 2, 3)
  {
    hide Power, Coef, Apart;
    TwentyPowers();
    TripleCoefs(0, 2, 3);
    ApartBy(32, 44, 13);
  }

  lemma Apart024()
    ensures TripleApart(0, 2, 4)
  {
    hide Power, Coef, Apart;
    TwentyPowers();
    TripleCoefs(0, 2, 4);
    ApartBy(64, 84, 21);
  }

  lemma Apart034()
    ensures TripleApart(0, 3, 4)
  {
    hide Power, Coef, Apart;
    TwentyPowers();
    TripleCoefs(0, 3, 4);
    ApartBy(128, 152, 25);
  }

  lemma Apart123()
    ensures TripleApart(1, 2, 3)
  {
    hide Power, Coef, Apart;
    TwentyPowers();
    TripleCoefs(1, 2, 3);
    ApartBy(64, 56, 14);
  }

  lemma Apart124()
    ensures TripleApart(1, 2, 4)
  {
    hide Power, Coef, Apart;
    TwentyPowers();
    TripleCoefs(1, 2, 4);
    ApartBy(128, 104, 22);
  }

  lemma Apart134()
    ensures TripleApart(1, 3, 4)
  {
    hide Power, Coef, Apart;
    TwentyPowers();
    TripleCoefs(1, 3, 4);
    ApartBy(29, 176, 26);
  }

  lemma Apart234()
    ensures TripleApart(2, 3, 4)
  {
    hide Power, Coef, Apart;
    TwentyPowers();
    TripleCoefs(2, 3, 4);
    ApartBy(58, 224, 28);
  }

  lemma QuadCoefs(c: nat, d: nat, e: nat, f: nat)
    ensures Coef([c, d, e, f], 0) == XTimes(f, Coef([c, d, e], 0))
    ensures Coef([c, d, e, f], 1) == Add(Coef([c, d, e], 0), XTimes(f, Coef([c, d, e], 1)))
    ensures Coef([c, d, e, f], 2) == Add(Coef([c, d, e], 1), XTimes(f, Coef([c, d, e], 2)))
    ensures Coef([c, d, e, f], 3) == Add(Coef([c, d, e], 2), XTimes(f, 1))
    ensures Coef([c, d, e, f], 4) == 1
  {
    hide GfMul, Add, Power, Coef, XTimes, PolyMul;
    assert [c, d, e] + [f] == [c, d, e, f];
    LeadingCoef([c, d, e], 3);
    LeadingCoef([c, d, e, f], 4);
    NextCoef([c, d, e], f, 0);
    NextCoef([c, d, e], f, 1);
    NextCoef([c, d, e], f, 2);
    NextCoef([c, d, e], f, 3);
    AddLaws(XTimes(f, Coef([c, d, e], 0)), 0, 0);
  }

  lemma NextCoef(front: seq<nat>, c: nat, j: nat)
    ensures Coef(front + [c], j) == Add(if j == 0 then 0 else Coef(front, j - 1), XTimes(c, Coef(front, j)))
  {
    hide GfMul, Add, Power, Coef, XTimes, PolyMul;
    CoefOfMore(front, c, j);
    GfMulIsPolyMul(Power(c), Coef(front, j));
    PolyMulPower(c, Coef(front, j));
  }

  predicate QuadNonzero(c: nat, d: nat, e: nat, f: nat) {
    forall t: nat :: t <= 4 ==> Coef([c, d, e, f], t) != 0
  }

  lemma QuadNonzeroIf(c: nat, d: nat, e: nat, f: nat)
    requires Coef([c, d, e, f], 0) != 0 && Coef([c, d, e, f], 1) != 0 && Coef([c, d, e, f], 2) != 0
    requires Coef([c, d, e, f], 3) != 0 && Coef([c, d, e, f], 4) != 0
    ensures QuadNonzero(c, d, e, f)
  {
    hide Coef;
    forall t: nat | t <= 4 ensures Coef([c, d, e, f], t) != 0 {
      assert t == 0 || t == 1 || t == 2 || t == 3 || t == 4;
    }
  }

  lemma Quad0123()
    ensures QuadNonzero(0, 1, 2, 3)
  {
    hide Power, Coef, QuadNonzero;
    TwentyPowers();
    TripleCoefs(0, 1, 2);
    QuadCoefs(0, 1, 2, 3);
    QuadNonzeroIf(0, 1, 2, 3);
  }

  lemma Quad0124()
    ensures QuadNonzero(0, 1, 2, 4)
  {
    hide Power, Coef, QuadNonzero;
    TwentyPowers();
    TripleCoefs(0, 1, 2);
    QuadCoefs(0, 1, 2, 4);
    QuadNonzeroIf(0, 1, 2, 4);
  }

  lemma Quad0134()
    ensures QuadNonzero(0, 1, 3, 4)
  {
    hide Power, Coef, QuadNonzero;
    TwentyPowers();
    TripleCoefs(0, 1, 3);
    QuadCoefs(0, 1, 3, 4);
    QuadNonzeroIf(0, 1, 3, 4);
  }

  lemma Quad0234()
    ensures QuadNonzero(0, 2, 3, 4)
  {
    hide Power, Coef, QuadNonzero;
    TwentyPowers();
    TripleCoefs(0, 2, 3);
    QuadCoefs(0, 2, 3, 4);
    QuadNonzeroIf(0, 2, 3, 4);
  }

  lemma Quad1234()
    ensures QuadNonzero(1, 2, 3, 4)
  {
    hide Power, Coef, QuadNonzero;
    TwentyPowers();
    TripleCoefs(1, 2, 3);
    QuadCoefs(1, 2, 3, 4);
    QuadNonzeroIf(1, 2, 3, 4);
  }

  /** The columns below 5 but u, in order. */
  function AllButColumn(u: nat): seq<nat>
    requires u < 5
  {
    if u == 0 then [1, 2, 3, 4] else if u == 1 then [0, 2, 3, 4] else if u == 2 then [0, 1, 3, 4]
    else if u == 3 then [0, 1, 2, 4] else [0, 1, 2, 3]
  }

  lemma AllButColumnNonzero(u: nat, t: nat)
    requires u < 5 && t <= 4
    ensures Coef(AllButColumn(u), t) != 0
  {
    hide Coef;
    if u == 0 { Quad1234(); } else if u == 1 { Quad0234(); } else if u == 2 { Quad0134(); }
    else if u == 3 { Quad0124(); } else { Quad0123(); }
  }

  lemma AllButColumnLists(u: nat, columns: set<nat>)
    requires u < 5 && |columns| == 4 && (forall c :: c in columns ==> c < 5)
    requires forall c: nat :: c < 5 && c != u ==> c in columns
    ensures Lists(AllButColumn(u), columns)
  {
    if u in columns {
      assert Below(5) <= columns;
      SubsetSize(Below(5), columns);
    }
  }

  lemma FourOfFive(rows: set<nat>, columns: set<nat>)
    requires SquareSystem(5, 5, rows, columns) && |columns| == 4
    ensures OnlyZero(5, rows, columns)
  {
    hide Coef, Power, AllButColumn, Lists, DistinctPowers;
    var u := MissingOne(columns, 5);
    var t := MissingOne(rows, 5);
    AllButColumnLists(u, columns);
    AllButColumnNonzero(u, t);
    ColumnsDistinct(columns, 5);
    ListsSize(AllButColumn(u), columns);
    AllButOne(5, AllButColumn(u), rows, columns, t);
  }

  lemma ListsSize(list: seq<nat>, columns: set<nat>)
    requires Lists(list, columns)
    ensures |list| == |columns|
  {
  }

  lemma ThreeOfFive(rows: set<nat>, columns: set<nat>)
    requires SquareSystem(5, 5, rows, columns) && |columns| == 3
    ensures OnlyZero(5, rows, columns)
  {
    hide Coef, Power, Independent;
    var c, d, e := ThreeElements(columns);
    var t, w := MissingTwo(rows, 5);
    TriplesApart(c, d, e);
    IndependentIf([c, d, e]);
    ColumnsDistinct(columns, 5);
    AllButTwo(5, [c, d, e], rows, columns, t, w);
  }

  // ----- all safe sizes

  lemma CoveredSystem(k: nat, p: nat, rows: set<nat>, columns: set<nat>)
    requires Covered(k, p) && SquareSystem(k, p, rows, columns)
    ensures OnlyZero(k, rows, columns)
  {
    hide OnlyZero;
    AtMostBelow(rows, p);
    if |rows| == 0 {
      assert rows == {};
      NoRows(k, columns);
    } else if |rows| == 1 {
      var e :| e in rows;
      OneRow(k, e, rows, columns);
    } else if |rows| == 2 {
      var e, f := TwoElements(rows);
      TwoRows(k, e, f, rows, columns);
    } else if |rows| == p {
      assert rows == Below(p) by { SameAsBelow(rows, p); }
      AllRows(k, p, rows, columns);
    } else if p == 4 {
      ThreeOfFour(k, rows, columns);
    } else if |rows| == 3 {
      ThreeOfFive(rows, columns);
    } else {
      FourOfFive(rows, columns);
    }
  }

  lemma AtMostBelow(rows: set<nat>, p: nat)
    requires forall r :: r in rows ==> r < p
    ensures |rows| <= p
  {
    assert rows <= Below(p);
    SubsetSize(rows, Below(p));
  }

  lemma SameAsBelow(rows: set<nat>, p: nat)
    requires |rows| == p && forall r :: r in rows ==> r < p
    ensures rows == Below(p)
  {
    if e :| e in Below(p) - rows {
      assert rows <= Below(p) - {e};
      SubsetSize(rows, Below(p) - {e});
    } else {
      assert Below(p) - rows == {};
    }
  }

  lemma SafeSystems(k: nat, p: nat)
    requires RsSafe(k, p)
    ensures AllSystems(k, p)
  {
    hide OnlyZero, Covered;
    forall rows: set<nat>, columns: set<nat> | SquareSystem(k, p, rows, columns) ensures OnlyZero(k, rows, columns) {
      if Covered(k, p) {
        CoveredSystem(k, p, rows, columns);
      } else {
        OtherCovered(k, p);
        CoveredSystem(p, k, columns, rows);
        Transposed(p, k, columns, rows);
      }
    }
  }

  lemma OtherCovered(k: nat, p: nat)
    requires RsSafe(k, p) && !Covered(k, p)
    ensures Covered(p, k)
  {
  }

  // ----- all other sizes

  /** A solution other than zero. */
  lemma HasSolution(k: nat, rows: set<nat>, columns: set<nat>, x: Vector, c: nat)
    requires Solution(k, rows, columns, x) && c < k && x[c] != 0
    ensures !OnlyZero(k, rows, columns)
  {
    hide Solution;
  }

  /** Columns 0 and 255 are equal. */
  lemma WideUnsafe(k: nat) returns (rows: set<nat>, columns: set<nat>)
    requires k > 255
    ensures SquareSystem(k, 2, rows, columns) && !OnlyZero(k, rows, columns)
  {
    rows, columns := {0, 1}, {0, 255};
    var x := AddVec(Unit(k, 0), Unit(k, 255));
    hide Power, Dot, PowerRow, Add;
    forall e | e in rows ensures Dot(PowerRow(k, e), x) == 0 {
      PowerIsOne(e * 0);
      PowerIsOne(e * 255);
      DotTwoUnits(PowerRow(k, e), 0, 255);
      AddLaws(1, 1, 0);
    }
    TwoUnits(k, 0, 255);
    HasSolution(k, rows, columns, x, 0);
  }

  lemma DotTwoUnits(u: Vector, i: nat, j: nat)
    requires i < |u| && j < |u|
    ensures Dot(u, AddVec(Unit(|u|, i), Unit(|u|, j))) == Add(u[i], u[j])
  {
    hide GfMul, Add;
    DotAdd(u, Unit(|u|, i), Unit(|u|, j));
    DotUnit(u, i);
    DotUnit(u, j);
  }

  lemma TwoUnits(k: nat, i: nat, j: nat)
    requires i < j < k
    ensures AddVec(Unit(k, i), Unit(k, j))[i] == 1
    ensures forall c :: 0 <= c < k && c != i && c != j ==> AddVec(Unit(k, i), Unit(k, j))[c] == 0
  {
  }

  /** p at column c, q at column d, r at column e, and 0 elsewhere. */
  function AtThree(k: nat, c: nat, p: Byte, d: nat, q: Byte, e: nat, r: Byte): (x: Vector)
    ensures |x| == k
  {
    AddVec(Scale(p, Unit(k, c)), AddVec(Scale(q, Unit(k, d)), Scale(r, Unit(k, e))))
  }

  lemma AtThreeEntries(k: nat, c: nat, p: Byte, d: nat, q: Byte, e: nat, r: Byte)
    requires c < d < e < k
    ensures AtThree(k, c, p, d, q, e, r)[c] == p
    ensures forall i :: 0 <= i < k && i != c && i != d && i != e ==> AtThree(k, c, p, d, q, e, r)[i] == 0
  {
    hide GfMul, Add;
    MulOne(p);
    MulZero(p, 0);
    MulZero(q, 0);
    MulZero(r, 0);
    AddLaws(0, 0, 0);
    AddLaws(p, 0, 0);
  }

  lemma DotAtThree(u: Vector, c: nat, p: Byte, d: nat, q: Byte, e: nat, r: Byte)
    requires c < |u| && d < |u| && e < |u|
    ensures Dot(u, AtThree(|u|, c, p, d, q, e, r)) == Add(GfMul(u[c], p), Add(GfMul(u[d], q), GfMul(u[e], r)))
  {
    hide GfMul, Add;
    var n := |u|;
    DotAdd(u, Scale(p, Unit(n, c)), AddVec(Scale(q, Unit(n, d)), Scale(r, Unit(n, e))));
    DotAdd(u, Scale(q, Unit(n, d)), Scale(r, Unit(n, e)));
    DotScaledUnit(u, p, c);
    DotScaledUnit(u, q, d);
    DotScaledUnit(u, r, e);
  }

  lemma DotScaledUnit(u: Vector, p: Byte, c: nat)
    requires c < |u|
    ensures Dot(u, Scale(p, Unit(|u|, c))) == GfMul(u[c], p)
  {
    hide GfMul, Add;
    DotUpToCommutes(u, Scale(p, Unit(|u|, c)), |u|);
    DotUpToScale(p, Unit(|u|, c), u, |u|);
    DotUnit(u, c);
    MulCommutes(p, u[c]);
  }

  /** 1 + {2}^10 + {2}^21 == 0, and so are the sums of the squares and of the fourth powers. */
  lemma TwentyTwoUnsafe(k: nat) returns (rows: set<nat>, columns: set<nat>)
    requires k >= 22
    ensures SquareSystem(k, 4, rows, columns) && !OnlyZero(k, rows, columns)
  {
    hide Power, Dot, PowerRow, AtThree;
    rows, columns := {0, 1, 3}, {0, 10, 21};
    var x := AtThree(k, 0, Power(0), 10, Power(10), 21, Power(21));
    forall e | e in rows ensures Dot(PowerRow(k, e), x) == 0 {
      DotAtThree(PowerRow(k, e), 0, Power(0), 10, Power(10), 21, Power(21));
      SumsOfPowers(e);
    }
    AtThreeEntries(k, 0, Power(0), 10, Power(10), 21, Power(21));
    HasSolution(k, rows, columns, x, 0);
  }

  lemma SumsOfPowers(e: nat)
    requires e == 0 || e == 1 || e == 3
    ensures Add(GfMul(Power(e * 0), Power(0)),
                Add(GfMul(Power(e * 10), Power(10)), GfMul(Power(e * 21), Power(21)))) == 0
  {
    hide Power, Add, GfMul;
    GfMulPower(e * 0, 0);
    GfMulPower(e * 10, 10);
    GfMulPower(e * 21, 21);
    FrobeniusSums();
  }

  lemma FrobeniusSums()
    ensures Add(Power(0), Add(Power(10), Power(21))) == 0
    ensures Add(Power(0), Add(Power(20), Power(42))) == 0
    ensures Add(Power(0), Add(Power(40), Power(84))) == 0
  {
    TwentyPowers();
    assert Power(20) == 180;
    PowerMul(21, 21); assert Power(42) == 181;
    PowerMul(20, 20); assert Power(40) == 106;
    PowerMul(42, 42); assert Power(84) == 107;
  }

  /** Rows 0, 1 and 4 on columns 0, 3 and 5. */
  lemma SixUnsafe(k: nat) returns (rows: set<nat>, columns: set<nat>)
    requires k >= 6
    ensures SquareSystem(k, 5, rows, columns) && !OnlyZero(k, rows, columns)
  {
    hide Power, Dot, PowerRow, AtThree, Add, GfMul;
    rows, columns := {0, 1, 4}, {0, 3, 5};
    var x := AtThree(k, 0, 40, 3, 33, 5, 9);
    forall e | e in rows ensures Dot(PowerRow(k, e), x) == 0 {
      DotAtThree(PowerRow(k, e), 0, 40, 3, 33, 5, 9);
      SumsOfThree(e);
    }
    AtThreeEntries(k, 0, 40, 3, 33, 5, 9);
    HasSolution(k, rows, columns, x, 0);
  }

  lemma SumsOfThree(e: nat)
    requires e == 0 || e == 1 || e == 4
    ensures Add(GfMul(Power(e * 0), 40), Add(GfMul(Power(e * 3), 33), GfMul(Power(e * 5), 9))) == 0
  {
    hide Power, GfMul, PolyMul;
    TimesPower(0, 40);
    if e == 0 {
      TimesPower(0, 33);
      TimesPower(0, 9);
    } else if e == 1 {
      TimesPower(3, 33);
      TimesPower(5, 9);
    } else {
      TimesPower(12, 33);
      assert XTimes(4, 33) == 42; assert XTimes(8, 33) == 154; assert XTimes(12, 33) == 85;
      TimesPower(20, 9);
      assert XTimes(4, 9) == 144; assert XTimes(8, 9) == 245; assert XTimes(12, 9) == 235;
      assert XTimes(16, 9) == 22; assert XTimes(20, 9) == 125;
    }
  }

  lemma TimesPower(n: nat, b: Byte)
    ensures GfMul(Power(n), b) == XTimes(n, b)
  {
    hide *;
    GfMulIsPolyMul(Power(n), b);
    PolyMulPower(n, b);
  }

  lemma UnsafeSystem(k: nat, p: nat) returns (rows: set<nat>, columns: set<nat>)
    requires !RsSafe(k, p)
    ensures SquareSystem(k, p, rows, columns) && !OnlyZero(k, rows, columns)
  {
    hide OnlyZero;
    if k > 255 {
      rows, columns := WideUnsafe(k);
    } else if k >= 22 && p >= 4 {
      rows, columns := TwentyTwoUnsafe(k);
    } else if k >= 6 && p >= 5 {
      rows, columns := SixUnsafe(k);
    } else {
      if p > 255 {
        columns, rows := WideUnsafe(p);
      } else if p >= 22 {
        columns, rows := TwentyTwoUnsafe(p);
      } else {
        columns, rows := SixUnsafe(p);
      }
      if OnlyZero(k, rows, columns) { Transposed(k, p, rows, columns); }
    }
  }

  // ----- the theorem

  /** For every number of sources and of parity rows: any k rows are nonsingular exactly for these
      sizes. */
  lemma RsRecoversExactly(a: seq<Byte>, m: nat, k: nat)
    requires IsRsMatrix(a, m, k) && k <= m
    ensures AnyRowsNonsingular(a, m, k) <==> RsSafe(k, m - k)
  {
    hide AnyRowsNonsingular, AllSystems, IsRsMatrix;
    if RsSafe(k, m - k) {
      SafeSystems(k, m - k);
      AnyRowsIfSystems(a, m, k);
    } else if AnyRowsNonsingular(a, m, k) {
      var rows, columns := UnsafeSystem(k, m - k);
      SystemsIfAnyRows(a, m, k, rows, columns);
    }
  }

  /** The conditions that the interface documents. */
  predicate Documented(k: nat, m: nat) {
    k <= 3 || (k == 4 && m <= 25) || (k == 5 && m <= 10) || (k <= 21 && m - k == 4) || m - k <= 3
  }

  /** They are complete, and right but for blocks with more than 255 rows or columns. */
  lemma DocumentedSizes(k: nat, m: nat)
    requires k <= m
    ensures RsSafe(k, m - k) ==> Documented(k, m)
    ensures Documented(k, m) ==>
      (RsSafe(k, m - k) <==> k <= 1 || m - k <= 1 || (k <= 255 && m - k <= 255))
  {
  }
}
