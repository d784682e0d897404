/** Square systems of powers of {2} that have only the zero solution. */
module PowerSystems {
  import opened Arithmetic
  import opened GaloisField
  import opened GaloisTables
  import opened LinearAlgebra
  import opened RankSymmetry
  import opened RowChoice

  // ----- rows in arithmetic progression

  function Shifted(x: Vector, s: nat, j0: nat): (z: Vector)
    ensures |z| == |x|
  {
    seq(|x|, c requires 0 <= c < |x| => GfMul(Add(Power(s * c), Power(s * j0)), x[c]))
  }

  lemma {:induction false} ShiftedSum(k: nat, e: nat, s: nat, j0: nat, x: Vector, n: nat)
    requires n <= k == |x|
    ensures DotUpTo(PowerRow(k, e), Shifted(x, s, j0), n) ==
            Add(DotUpTo(PowerRow(k, e + s), x, n), GfMul(Power(s * j0), DotUpTo(PowerRow(k, e), x, n)))
  {
    hide GfMul, Add, Power, PowerRow;
    var g := Power(s * j0);
    if n == 0 {
      MulZero(g, 0);
      AddLaws(0, 0, 0);
    } else {
      ShiftedSum(k, e, s, j0, x, n - 1);
      var c := n - 1;
      var p, q := Power(e * c), Power(s * c);
      // p * ((q + g) * x) == (p * q) * x + g * (p * x)
      MulDistributes(x[c], q, g);
      MulDistributes(p, GfMul(q, x[c]), GfMul(g, x[c]));
      MulAssociates(p, q, x[c]);
      GfMulPower(e * c, s * c);
      assert e * c + s * c == (e + s) * c;
      MulAssociates(p, g, x[c]); MulCommutes(p, g); MulAssociates(g, p, x[c]);
      MulDistributes(g, DotUpTo(PowerRow(k, e), x, c), GfMul(p, x[c]));
      AddSwap(DotUpTo(PowerRow(k, e + s), x, c), GfMul(g, DotUpTo(PowerRow(k, e), x, c)),
              GfMul(Power((e + s) * c), x[c]), GfMul(g, GfMul(p, x[c])));
    }
  }

  /** Rows e, e+s, ..., e+(t-1)*s send x to zero. */
  ghost predicate SolvesPowers(k: nat, e: nat, s: nat, t: nat, x: Vector)
    requires |x| == k
  {
    forall q: nat :: q < t ==> Dot(PowerRow(k, e + s * q), x) == 0
  }

  lemma ShiftSolves(k: nat, e: nat, s: nat, t: nat, j0: nat, x: Vector)
    requires |x| == k && t > 0 && SolvesPowers(k, e, s, t, x)
    ensures SolvesPowers(k, e, s, t - 1, Shifted(x, s, j0))
  {
    hide GfMul, Add, Power, PowerRow, Shifted, Dot;
    forall q: nat | q < t - 1 ensures Dot(PowerRow(k, e + s * q), Shifted(x, s, j0)) == 0 {
      assert Dot(PowerRow(k, e + s * (q + 1)), x) == 0;
      Distribute(q, 1, s);
      ShiftSolvesAt(k, e + s * q, s, j0, x);
    }
  }

  lemma ShiftSolvesAt(k: nat, e: nat, s: nat, j0: nat, x: Vector)
    requires |x| == k && Dot(PowerRow(k, e), x) == 0 && Dot(PowerRow(k, e + s), x) == 0
    ensures Dot(PowerRow(k, e), Shifted(x, s, j0)) == 0
  {
    hide GfMul, Add, Power, PowerRow;
    ShiftedSum(k, e, s, j0, x, k);
    MulZero(Power(s * j0), 0);
    AddLaws(0, 0, 0);
  }

  lemma ShiftedZero(x: Vector, s: nat, j0: nat, c: nat)
    requires j0 < |x| && c < |x|
    ensures Shifted(x, s, j0)[c] == 0 <==> x[c] == 0 || Power(s * c) == Power(s * j0)
  {
    hide GfMul, Add, Power;
    AddLaws(Power(s * c), Power(s * j0), 0);
    MulZero(Add(Power(s * c), Power(s * j0)), x[c]);
  }

  /** With one unknown left, one equation makes it zero. */
  lemma LastUnknown(k: nat, e: nat, s: nat, t: nat, j0: nat, x: Vector)
    requires |x| == k && j0 < k && t > 0 && SolvesPowers(k, e, s, t, x)
    requires forall c: nat :: c < k && c != j0 ==> x[c] == 0
    ensures x == Zero(k)
  {
    hide GfMul, Add, Power, PowerRow;
    assert Dot(PowerRow(k, e + s * 0), x) == 0;
    DotUpToSingle(PowerRow(k, e), x, j0, k);
    MulZero(Power(e * j0), x[j0]);
  }

  /** Rows in arithmetic progression admit no nonzero solution on as many columns. */
  lemma {:induction false} PowerSystem(k: nat, e: nat, s: nat, t: nat, columns: set<nat>, x: Vector)
    requires |x| == k && |columns| <= t && SupportedBy(x, columns) && SolvesPowers(k, e, s, t, x)
    requires forall c :: c in columns ==> c < k
    requires forall c, d :: c in columns && d in columns && Power(s * c) == Power(s * d) ==> c == d
    ensures x == Zero(k)
    decreases |columns|
  {
    hide SolvesPowers, Shifted, Power;
    if j0 :| j0 in columns {
      var z := Shifted(x, s, j0);
      ShiftSolves(k, e, s, t, j0, x);
      forall c: nat | c < k ensures c in columns ==> (z[c] == 0 <==> x[c] == 0 || c == j0) {
        ShiftedZero(x, s, j0, c);
      }
      forall c: nat | c < k && c !in columns - {j0} ensures z[c] == 0 {
        ShiftedZero(x, s, j0, c);
      }
      PowerSystem(k, e, s, t - 1, columns - {j0}, z);
      LastUnknown(k, e, s, t, j0, x);
    }
  }

  // ----- the products of X + {2}^c

  /** The coefficient of X^j in the product of X + {2}^c over the given columns c. */
  function Coef(columns: seq<nat>, j: nat): Byte {
    if columns == [] then (if j == 0 then 1 else 0)
    else
      var front, last := columns[..|columns| - 1], columns[|columns| - 1];
      Add(if j == 0 then 0 else Coef(front, j - 1), GfMul(Power(last), Coef(front, j)))
  }

  lemma {:induction false} LeadingCoef(columns: seq<nat>, j: nat)
    requires j >= |columns|
    ensures Coef(columns, j) == if j == |columns| then 1 else 0
  {
    hide GfMul, Add, Power;
    if columns != [] {
      var front, last := columns[..|columns| - 1], columns[|columns| - 1];
      LeadingCoef(front, j - 1);
      LeadingCoef(front, j);
      MulZero(Power(last), 0);
      AddLaws(Coef(front, j - 1), 0, 0);
    }
  }

  /** What row e makes of x. */
  function Made(k: nat, x: Vector, e: nat): Byte
    requires |x| == k
  {
    Dot(PowerRow(k, e), x)
  }

  /** The first n coefficients, each times what row i + j makes of x. */
  function Weighted(columns: seq<nat>, k: nat, x: Vector, i: nat, n: nat): Byte
    requires |x| == k
  {
    if n == 0 then 0
    else Add(Weighted(columns, k, x, i, n - 1), GfMul(Coef(columns, n - 1), Made(k, x, i + n - 1)))
  }

  /** w + g*(q*d) + (q + g*p)*d' == w + q*(d' + g*d) + g*(p*d') */
  lemma Regroup(w: Byte, g: Byte, p: Byte, q: Byte, d: Byte, d': Byte)
    ensures Add(Add(w, GfMul(g, GfMul(q, d))), GfMul(Add(q, GfMul(g, p)), d'))
      == Add(Add(w, GfMul(q, Add(d', GfMul(g, d)))), GfMul(g, GfMul(p, d')))
  {
    hide GfMul, Add;
    MulDistributes(d', q, GfMul(g, p));
    MulAssociates(g, p, d');
    MulDistributes(q, d', GfMul(g, d));
    MulAssociates(q, g, d); MulCommutes(q, g); MulAssociates(g, q, d);
    AddLaws(w, GfMul(g, GfMul(q, d)), Add(GfMul(q, d'), GfMul(g, GfMul(p, d'))));
    AddLaws(GfMul(g, GfMul(q, d)), GfMul(q, d'), GfMul(g, GfMul(p, d')));
    AddLaws(w, Add(GfMul(q, d'), GfMul(g, GfMul(q, d))), GfMul(g, GfMul(p, d')));
  }

  /** Taking in one more column shifts x. */
  lemma {:induction false} WeightedShift(front: seq<nat>, c: nat, k: nat, x: Vector, i: nat, n: nat)
    requires |x| == k
    ensures Weighted(front + [c], k, x, i, n + 1)
      == Add(Weighted(front, k, Shifted(x, 1, c), i, n),
             GfMul(Power(c), GfMul(Coef(front, n), Made(k, x, i + n))))
  {
    hide GfMul, Add, Power, Made, Shifted, Coef;
    var g, z := Power(c), Shifted(x, 1, c);
    CoefOfMore(front, c, n);
    if n == 0 {
      MulAssociates(g, Coef(front, 0), Made(k, x, i));
      AddLaws(GfMul(g, Coef(front, 0)), 0, 0);
      WeightedOne(front + [c], k, x, i);
    } else {
      WeightedShift(front, c, k, x, i, n - 1);
      var d, d' := Made(k, x, i + n - 1), Made(k, x, i + n);
      ShiftedRow(k, i + n - 1, c, x);
      Regroup(Weighted(front, k, z, i, n - 1), g, Coef(front, n), Coef(front, n - 1), d, d');
    }
  }

  lemma WeightedOne(columns: seq<nat>, k: nat, x: Vector, i: nat)
    requires |x| == k
    ensures Weighted(columns, k, x, i, 1) == Add(0, GfMul(Coef(columns, 0), Made(k, x, i)))
  {
    assert Weighted(columns, k, x, i, 0) == 0;
  }

  lemma CoefOfMore(front: seq<nat>, c: nat, j: nat)
    ensures Coef(front + [c], j) == Add(if j == 0 then 0 else Coef(front, j - 1), GfMul(Power(c), Coef(front, j)))
  {
    assert (front + [c])[..|front + [c]| - 1] == front;
  }

  lemma ShiftedRow(k: nat, e: nat, c: nat, x: Vector)
    requires |x| == k
    ensures Made(k, Shifted(x, 1, c), e)
      == Add(Made(k, x, e + 1), GfMul(Power(c), Made(k, x, e)))
  {
    hide GfMul, Add, Power, PowerRow, Shifted;
    ShiftedSum(k, e, 1, c, x, k);
    assert 1 * c == c;
  }

  /** The product vanishes at its columns, so x, which is zero elsewhere, gives zero. */
  lemma {:induction false} Annihilated(columns: seq<nat>, k: nat, x: Vector, i: nat)
    requires |x| == k && (forall c :: c in columns ==> c < k)
    requires forall c: nat :: c < k && c !in columns ==> x[c] == 0
    ensures Weighted(columns, k, x, i, |columns| + 1) == 0
  {
    hide GfMul, Add, Power, PowerRow, Shifted, Coef;
    if columns == [] {
      DotVanishes(PowerRow(k, i), x);
      MulZero(Coef([], 0), 0);
      WeightedOne([], k, x, i);
      AddLaws(0, 0, 0);
    } else {
      var n := |columns| - 1;
      var front, c := columns[..n], columns[n];
      assert columns == front + [c] && c in columns;
      forall d | d in front ensures d < k { assert d in columns; }
      var z := Shifted(x, 1, c);
      forall d: nat | d < k && d !in front ensures z[d] == 0 { ShiftedZero(x, 1, c, d); }
      Annihilated(front, k, z, i);
      WeightedShift(front, c, k, x, i, n + 1);
      LeadingCoef(front, n + 1);
      MulZero(0, Made(k, x, i + (n + 1)));
      MulZero(Power(c), 0);
      AddLaws(0, 0, 0);
    }
  }

  /** A sum with at most one nonzero term. */
  lemma {:induction false} WeightedSingle(columns: seq<nat>, k: nat, x: Vector, i: nat, t: nat, n: nat)
    requires |x| == k && forall e: nat :: i <= e < i + n && e != i + t ==> Made(k, x, e) == 0
    ensures Weighted(columns, k, x, i, n) == if t < n then GfMul(Coef(columns, t), Made(k, x, i + t)) else 0
  {
    hide GfMul, Add, Power, Made, Coef;
    if n > 0 {
      WeightedSingle(columns, k, x, i, t, n - 1);
      var d := Made(k, x, i + (n - 1));
      assert i + (n - 1) == i + n - 1;
      if n - 1 != t { MulZero(Coef(columns, n - 1), d); }
      AddLaws(GfMul(Coef(columns, t), Made(k, x, i + t)), 0, 0);
      AddLaws(0, GfMul(Coef(columns, n - 1), d), 0);
    }
  }

  /** A sum with at most two nonzero terms, those of rows t and w. */
  lemma {:induction false} WeightedPair(columns: seq<nat>, k: nat, x: Vector, i: nat, t: nat, w: nat, n: nat)
    requires |x| == k && t != w && forall e: nat :: i <= e < i + n && e != t && e != w ==> Made(k, x, e) == 0
    ensures Weighted(columns, k, x, i, n) == Add(Term(columns, k, x, i, t, n), Term(columns, k, x, i, w, n))
  {
    hide GfMul, Add, Made, Coef, Term;
    NoTerm(columns, k, x, i, t);
    NoTerm(columns, k, x, i, w);
    AddLaws(0, 0, 0);
    if n > 0 {
      WeightedPair(columns, k, x, i, t, w, n - 1);
      NextTerm(columns, k, x, i, t, n);
      NextTerm(columns, k, x, i, w, n);
      var e := i + (n - 1);
      if e != t && e != w { MulZero(Coef(columns, n - 1), Made(k, x, e)); }
      OneOfThree(Term(columns, k, x, i, t, n - 1), Term(columns, k, x, i, w, n - 1),
                 GfMul(Coef(columns, n - 1), Made(k, x, e)));
    }
  }

  lemma OneOfThree(p: Byte, q: Byte, d: Byte)
    ensures Add(Add(p, q), 0) == Add(p, q) && Add(Add(p, 0), d) == Add(p, d) && Add(Add(0, q), d) == Add(d, q)
  {
  }

  lemma NoTerm(columns: seq<nat>, k: nat, x: Vector, i: nat, e: nat)
    requires |x| == k
    ensures Term(columns, k, x, i, e, 0) == 0
  {
    hide GfMul, Made;
    MulZero(0, Made(k, x, e));
  }

  lemma NextTerm(columns: seq<nat>, k: nat, x: Vector, i: nat, e: nat, n: nat)
    requires |x| == k && n > 0
    ensures e != i + (n - 1) ==> Term(columns, k, x, i, e, n) == Term(columns, k, x, i, e, n - 1)
    ensures e == i + (n - 1) ==> Term(columns, k, x, i, e, n) == GfMul(Coef(columns, n - 1), Made(k, x, e))
    ensures e == i + (n - 1) ==> Term(columns, k, x, i, e, n - 1) == 0
  {
    hide GfMul, Made, Coef;
    MulZero(0, Made(k, x, e));
  }

  function Term(columns: seq<nat>, k: nat, x: Vector, i: nat, e: nat, n: nat): Byte
    requires |x| == k
  {
    GfMul(CoefAt(columns, i, e, n), Made(k, x, e))
  }

  /** The coefficient that row e has in a sum of n terms from row i on. */
  function CoefAt(columns: seq<nat>, i: nat, e: nat, n: nat): Byte {
    if i <= e < i + n then Coef(columns, e - i) else 0
  }

  // ----- rows from 0 on, with one or two missing

  /** The list has the elements of the set, each once. */
  ghost predicate Lists(list: seq<nat>, columns: set<nat>) {
    |list| == |columns| && forall c :: c in list <==> c in columns
  }

  ghost predicate DistinctPowers(columns: set<nat>) {
    forall c, d :: c in columns && d in columns && Power(1 * c) == Power(1 * d) ==> c == d
  }

  lemma FirstRows(k: nat, columns: set<nat>, x: Vector, n: nat)
    requires |x| == k && |columns| <= n && SupportedBy(x, columns) && DistinctPowers(columns)
    requires forall c :: c in columns ==> c < k
    requires forall e: nat :: e < n ==> Made(k, x, e) == 0
    ensures x == Zero(k)
  {
    hide Power, PowerRow, Dot;
    forall q: nat | q < n ensures Dot(PowerRow(k, 0 + 1 * q), x) == 0 { assert Made(k, x, q) == 0; }
    PowerSystem(k, 0, 1, n, columns, x);
  }

  /** One row more than columns, with one missing whose coefficient is not zero. */
  lemma AllButOne(k: nat, list: seq<nat>, rows: set<nat>, columns: set<nat>, t: nat)
    requires Lists(list, columns) && DistinctPowers(columns) && forall c :: c in columns ==> c < k
    requires t <= |list| && Coef(list, t) != 0
    requires forall e: nat :: e <= |list| && e != t ==> e in rows
    ensures OnlyZero(k, rows, columns)
  {
    hide Coef, Made, DistinctPowers, Power, GfMul;
    forall x: Vector | Solution(k, rows, columns, x) ensures x == Zero(k) {
      KilledRows(k, rows, columns, x);
      SupportedList(list, columns, k, x);
      Annihilated(list, k, x, 0);
      WeightedSingle(list, k, x, 0, t, |list| + 1);
      MulZero(Coef(list, t), Made(k, x, t));
      assert Made(k, x, 0 + t) == 0;
      FirstRows(k, columns, x, |list| + 1);
    }
    OnlyZeroIf(k, rows, columns);
  }

  lemma KilledRows(k: nat, rows: set<nat>, columns: set<nat>, x: Vector)
    requires Solution(k, rows, columns, x)
    ensures |x| == k && SupportedBy(x, columns) && forall r :: r in rows ==> Made(k, x, r) == 0
  {
  }

  lemma SupportedList(list: seq<nat>, columns: set<nat>, k: nat, x: Vector)
    requires |x| == k && SupportedBy(x, columns) && Lists(list, columns)
    ensures forall c: nat :: c < k && c !in list ==> x[c] == 0
    ensures forall c :: c in list <==> c in columns
  {
  }

  /** Two combinations of n + 1 rows out of n + 2 that tell any two rows apart. */
  ghost predicate Independent(list: seq<nat>) {
    var n := |list| + 1;
    forall t: nat, w: nat :: t < w <= n ==>
      GfMul(CoefAt(list, 0, t, n), CoefAt(list, 1, w, n)) != GfMul(CoefAt(list, 0, w, n), CoefAt(list, 1, t, n))
  }

  /** p*u + q*v == 0 and r*u + s*v == 0 with p*s != q*r make u and v zero. */
  lemma Cramer(p: Byte, q: Byte, r: Byte, s: Byte, u: Byte, v: Byte)
    requires Add(GfMul(p, u), GfMul(q, v)) == 0 && Add(GfMul(r, u), GfMul(s, v)) == 0
    requires GfMul(p, s) != GfMul(q, r)
    ensures u == 0 && v == 0
  {
    hide Add, GfMul;
    AddLaws(GfMul(p, u), GfMul(q, v), 0);
    AddLaws(GfMul(r, u), GfMul(s, v), 0);
    // p*(s*v) == p*(r*u) == r*(p*u) == r*(q*v)
    MulAssociates(p, s, v);
    MulAssociates(p, r, u); MulCommutes(p, r); MulAssociates(r, p, u);
    MulAssociates(r, q, v); MulCommutes(r, q);
    SameFactor(GfMul(p, s), GfMul(q, r), v);
    // s*(p*u) == s*(q*v) == q*(s*v) == q*(r*u)
    MulAssociates(s, p, u); MulCommutes(s, p);
    MulAssociates(s, q, v); MulCommutes(s, q); MulAssociates(q, s, v);
    MulAssociates(q, r, u);
    SameFactor(GfMul(p, s), GfMul(q, r), u);
  }

  lemma SameFactor(a: Byte, b: Byte, x: Byte)
    requires GfMul(a, x) == GfMul(b, x)
    ensures a == b || x == 0
  {
    hide GfMul, Add;
    MulDistributes(x, a, b);
    AddLaws(GfMul(a, x), GfMul(b, x), 0);
    MulZero(Add(a, b), x);
    AddLaws(a, b, 0);
  }

  /** Two rows more than columns, with two missing. */
  lemma AllButTwo(k: nat, list: seq<nat>, rows: set<nat>, columns: set<nat>, t: nat, w: nat)
    requires Lists(list, columns) && DistinctPowers(columns) && forall c :: c in columns ==> c < k
    requires t < w <= |list| + 1 && Independent(list)
    requires forall e: nat :: e <= |list| + 1 && e != t && e != w ==> e in rows
    ensures OnlyZero(k, rows, columns)
  {
    hide Coef, Made, DistinctPowers, Power, GfMul, CoefAt;
    var n := |list| + 1;
    forall x: Vector | Solution(k, rows, columns, x) ensures x == Zero(k) {
      KilledRows(k, rows, columns, x);
      SupportedList(list, columns, k, x);
      Annihilated(list, k, x, 0);
      Annihilated(list, k, x, 1);
      WeightedPair(list, k, x, 0, t, w, n);
      WeightedPair(list, k, x, 1, t, w, n);
      Cramer(CoefAt(list, 0, t, n), CoefAt(list, 0, w, n), CoefAt(list, 1, t, n), CoefAt(list, 1, w, n),
             Made(k, x, t), Made(k, x, w));
      FirstRows(k, columns, x, n + 1);
    }
    OnlyZeroIf(k, rows, columns);
  }

  // ----- one or two rows, or all

  lemma OneRow(k: nat, e: nat, rows: set<nat>, columns: set<nat>)
    requires e in rows && |columns| == 1 && forall c :: c in columns ==> c < k
    ensures OnlyZero(k, rows, columns)
  {
    hide Power, PowerRow, Dot;
    forall x: Vector | Solution(k, rows, columns, x) ensures x == Zero(k) {
      forall c, d | c in columns && d in columns ensures c == d { SingleElement(columns, c, d); }
      assert SolvesPowers(k, e, 1, 1, x);
      PowerSystem(k, e, 1, 1, columns, x);
    }
    OnlyZeroIf(k, rows, columns);
  }

  lemma SingleElement(s: set<nat>, c: nat, d: nat)
    requires |s| == 1 && c in s && d in s
    ensures c == d
  {
    SubsetSize({c, d}, s);
  }

  /** Two rows at a distance that keeps the powers of the columns apart. */
  lemma TwoRows(k: nat, e: nat, f: nat, rows: set<nat>, columns: set<nat>)
    requires e < f && e in rows && f in rows && |columns| == 2 && forall c :: c in columns ==> c < k
    requires f - e <= 4 && (f - e == 3 ==> k <= 85) && k <= 255
    ensures OnlyZero(k, rows, columns)
  {
    hide Power, PowerRow, Dot;
    var s := f - e;
    forall x: Vector | Solution(k, rows, columns, x) ensures x == Zero(k) {
      forall c, d | c in columns && d in columns && Power(s * c) == Power(s * d) ensures c == d {
        PowersDistinct(s, c, d, k);
      }
      forall q: nat | q < 2 ensures Dot(PowerRow(k, e + s * q), x) == 0 { assert q == 0 || q == 1; }
      PowerSystem(k, e, s, 2, columns, x);
    }
    OnlyZeroIf(k, rows, columns);
  }

  lemma PowersDistinct(s: nat, c: nat, d: nat, k: nat)
    requires 1 <= s <= 4 && c < k && d < k && k <= 255 && (s == 3 ==> k <= 85) && Power(s * c) == Power(s * d)
    ensures c == d
  {
    hide *;
    PowerInjective(s * c, s * d);
    var e := s * c / 255 - s * d / 255;
    assert s * c - s * d == 255 * e;
    if s == 1 { assert c - d == 255 * e; }
    if s == 2 { assert 2 * (c - d) == 255 * e; }
    if s == 3 { assert 3 * (c - d) == 255 * e; }
    if s == 4 { assert 4 * (c - d) == 255 * e; }
  }

  lemma ColumnsDistinct(columns: set<nat>, k: nat)
    requires k <= 255 && forall c :: c in columns ==> c < k
    ensures DistinctPowers(columns)
  {
    hide Power;
    forall c, d | c in columns && d in columns && Power(1 * c) == Power(1 * d) ensures c == d {
      PowersDistinct(1, c, d, k);
    }
  }

  lemma AllRows(k: nat, p: nat, rows: set<nat>, columns: set<nat>)
    requires k <= 255 && |columns| <= p && (forall c :: c in columns ==> c < k) && forall e: nat :: e < p ==> e in rows
    ensures OnlyZero(k, rows, columns)
  {
    hide Made, DistinctPowers;
    ColumnsDistinct(columns, k);
    forall x: Vector | Solution(k, rows, columns, x) ensures x == Zero(k) {
      KilledRows(k, rows, columns, x);
      FirstRows(k, columns, x, p);
    }
    OnlyZeroIf(k, rows, columns);
  }
}
