/** Square systems of powers of {2} and their transposes: one has only the zero solution exactly when
    the other has.  The proof counts vectors. */
module RankSymmetry {
  import opened Arithmetic
  import opened GaloisField
  import opened GaloisTables
  import opened LinearAlgebra
  import opened RowChoice

  /** Row e of the powers: {2}^(e*j) for each column j. */
  function PowerRow(k: nat, e: nat): (r: Vector)
    ensures |r| == k && forall j :: 0 <= j < k ==> r[j] == Power(e * j)
  {
    seq(k, j requires 0 <= j < k => Power(e * j))
  }

  /** x, with unknowns only at the given columns, is sent to zero by the given rows. */
  ghost predicate Solution(k: nat, rows: set<nat>, columns: set<nat>, x: Vector) {
    && |x| == k && SupportedBy(x, columns)
    && forall r :: r in rows ==> Dot(PowerRow(k, r), x) == 0
  }

  ghost predicate OnlyZero(k: nat, rows: set<nat>, columns: set<nat>) {
    forall x: Vector :: Solution(k, rows, columns, x) ==> x == Zero(k)
  }

  // ----- vectors are finitely many

  /** The vectors of vs with one more entry, whose value is in bs. */
  function Extended(vs: set<Vector>, bs: set<nat>): set<Vector>
    requires forall b :: b in bs ==> b < 256
  {
    set v, b | v in vs && b in bs :: v + [ByteOf(b)]
  }

  /** b is one of the values. */
  predicate Among(b: Byte, bs: set<nat>) {
    b as int in bs
  }

  lemma InExtended(vs: set<Vector>, bs: set<nat>, w: Vector)
    requires forall b :: b in bs ==> b < 256
    ensures w in Extended(vs, bs) <==> w != [] && w[..|w| - 1] in vs && Among(w[|w| - 1], bs)
  {
    hide ByteOf;
    if w in Extended(vs, bs) {
      var v, b :| v in vs && b in bs && v + [ByteOf(b)] == w;
      assert w[..|w| - 1] == v;
    } else if w != [] {
      var v, b := w[..|w| - 1], w[|w| - 1] as int;
      SameInt(ByteOf(b), w[|w| - 1]);
      assert v + [ByteOf(b)] == w;
    }
  }

  /** The values of an entry: any byte in the given columns, zero elsewhere. */
  function Values(column: nat, columns: set<nat>): (bs: set<nat>)
    ensures forall b :: b in bs ==> b < 256
  {
    if column in columns then Below(256) else {0}
  }

  lemma InValues(column: nat, columns: set<nat>, b: Byte)
    ensures Among(b, Values(column, columns)) <==> column in columns || b == 0
  {
    if b as int == 0 { SameInt(b, 0); }
  }

  lemma ValuesSize(column: nat, columns: set<nat>)
    ensures |Values(column, columns)| == if column in columns then 256 else 1
  {
  }

  /** The vectors of length n that are zero outside columns. */
  function Vectors(n: nat, columns: set<nat>): set<Vector> {
    if n == 0 then {[]} else Extended(Vectors(n - 1, columns), Values(n - 1, columns))
  }

  lemma {:induction false} InVectors(n: nat, columns: set<nat>, v: Vector)
    ensures v in Vectors(n, columns) <==> |v| == n && SupportedBy(v, columns)
  {
    hide Extended, Values, Among, SupportedBy;
    if n == 0 {
      NoEntries(columns, v);
    } else {
      InExtended(Vectors(n - 1, columns), Values(n - 1, columns), v);
      if v != [] {
        InVectors(n - 1, columns, v[..|v| - 1]);
        InValues(n - 1, columns, v[|v| - 1]);
        LastEntry(columns, v);
      }
    }
  }

  lemma NoEntries(columns: set<nat>, v: Vector)
    ensures v == [] ==> SupportedBy(v, columns)
  {
  }

  lemma LastEntry(columns: set<nat>, v: Vector)
    requires v != []
    ensures SupportedBy(v, columns)
      <==> SupportedBy(v[..|v| - 1], columns) && (|v| - 1 in columns || v[|v| - 1] == 0)
  {
  }

  lemma {:induction false} OneExtended(v: Vector, bs: set<nat>)
    requires forall b :: b in bs ==> b < 256
    ensures |Extended({v}, bs)| == |bs|
  {
    hide ByteOf, Among, Extended;
    if b :| b in bs {
      var rest := bs - {b};
      OneExtended(v, rest);
      var w := v + [ByteOf(b)];
      forall u: Vector ensures u in Extended({v}, bs) <==> u in Extended({v}, rest) || u == w {
        InExtended({v}, bs, u);
        InExtended({v}, rest, u);
        OneMoreValue(v, bs, b, u);
      }
      InExtended({v}, rest, w);
      OneMoreValue(v, bs, b, w);
      assert Extended({v}, bs) == Extended({v}, rest) + {w};
    } else {
      assert bs == {};
      NoValues({v});
    }
  }

  lemma OneMoreValue(v: Vector, bs: set<nat>, b: nat, u: Vector)
    requires b in bs && b < 256
    ensures u != [] && u[..|u| - 1] == v ==>
      (Among(u[|u| - 1], bs) <==> Among(u[|u| - 1], bs - {b}) || u == v + [ByteOf(b)])
    ensures !Among(ByteOf(b), bs - {b})
  {
    hide ByteOf;
    if u != [] && u[..|u| - 1] == v {
      assert u == v + [u[|u| - 1]];
      if u[|u| - 1] as int == b { SameInt(u[|u| - 1], ByteOf(b)); }
    }
  }

  lemma NoValues(vs: set<Vector>)
    ensures Extended(vs, {}) == {}
  {
  }

  lemma {:induction false} ExtendedSize(vs: set<Vector>, bs: set<nat>)
    requires forall b :: b in bs ==> b < 256
    ensures |Extended(vs, bs)| == |vs| * |bs|
  {
    hide Extended, Among;
    if v :| v in vs {
      var rest := vs - {v};
      ExtendedSize(rest, bs);
      OneExtended(v, bs);
      forall w: Vector
        ensures w in Extended(vs, bs) <==> w in Extended(rest, bs) + Extended({v}, bs)
        ensures !(w in Extended(rest, bs) && w in Extended({v}, bs))
      {
        InExtended(vs, bs, w);
        InExtended(rest, bs, w);
        InExtended({v}, bs, w);
      }
      SizeOfParts(Extended(vs, bs), Extended(rest, bs), Extended({v}, bs));
      Distribute(|rest|, 1, |bs|);
    } else {
      assert vs == {};
      NoneExtended(bs);
    }
  }

  lemma NoneExtended(bs: set<nat>)
    requires forall b :: b in bs ==> b < 256
    ensures Extended({}, bs) == {}
  {
  }

  lemma SizeOfParts(s: set<Vector>, t: set<Vector>, u: set<Vector>)
    requires forall w :: w in s <==> w in t + u
    requires forall w :: !(w in t && w in u)
    ensures |s| == |t| + |u|
  {
    assert s == t + u && t !! u;
  }

  /** How many of them there are depends only on the number of columns. */
  function Choices(q: nat): nat {
    if q == 0 then 1 else Choices(q - 1) * 256
  }

  lemma {:induction false} VectorsCount(n: nat, columns: set<nat>)
    requires forall c :: c in columns ==> c < n
    ensures |Vectors(n, columns)| == Choices(|columns|)
  {
    hide Extended, Values;
    if n == 0 {
      assert columns == {};
    } else {
      var less := columns - {n - 1};
      VectorsCount(n - 1, less);
      SameVectors(n - 1, less, columns);
      ExtendedSize(Vectors(n - 1, columns), Values(n - 1, columns));
      ValuesSize(n - 1, columns);
      if n - 1 !in columns { assert less == columns; }
    }
  }

  lemma {:induction false} SameVectors(n: nat, s: set<nat>, t: set<nat>)
    requires forall c: nat :: c < n ==> (c in s <==> c in t)
    ensures Vectors(n, s) == Vectors(n, t)
  {
    if n > 0 { SameVectors(n - 1, s, t); }
  }

  // ----- syndromes

  /** What the rows make of x, at the given rows only. */
  function Syndrome(k: nat, p: nat, rows: set<nat>, x: Vector): (y: Vector)
    requires |x| == k
    ensures |y| == p
  {
    seq(p, r requires 0 <= r < p => if r in rows then Dot(PowerRow(k, r), x) else 0)
  }

  function Syndromes(k: nat, p: nat, rows: set<nat>, xs: set<Vector>): set<Vector>
    requires forall x :: x in xs ==> |x| == k
  {
    set x | x in xs :: Syndrome(k, p, rows, x)
  }

  /** If only zero has the syndrome zero, different vectors have different syndromes. */
  lemma SyndromeInjective(k: nat, p: nat, rows: set<nat>, columns: set<nat>, x: Vector, x': Vector)
    requires OnlyZero(k, rows, columns) && forall r :: r in rows ==> r < p
    requires |x| == |x'| == k && SupportedBy(x, columns) && SupportedBy(x', columns)
    requires Syndrome(k, p, rows, x) == Syndrome(k, p, rows, x')
    ensures x == x'
  {
    hide Dot, PowerRow, Add;
    var d := AddVec(x, x');
    forall c: nat | c < k && c !in columns ensures d[c] == 0 { AddLaws(0, 0, 0); }
    forall r | r in rows ensures Dot(PowerRow(k, r), d) == 0 {
      assert Syndrome(k, p, rows, x)[r] == Syndrome(k, p, rows, x')[r];
      DotAdd(PowerRow(k, r), x, x');
      AddLaws(Dot(PowerRow(k, r), x), Dot(PowerRow(k, r), x'), 0);
    }
    assert Solution(k, rows, columns, d);
    forall c | 0 <= c < k ensures x[c] == x'[c] {
      assert d[c] == 0;
      AddLaws(x[c], x'[c], 0);
    }
  }

  lemma DotAdd(u: Vector, v: Vector, w: Vector)
    requires |u| == |v| == |w|
    ensures Dot(u, AddVec(v, w)) == Add(Dot(u, v), Dot(u, w))
  {
    hide Add, GfMul;
    DotUpToCommutes(u, AddVec(v, w), |u|);
    DotUpToAdd(v, w, u, |u|);
    DotUpToCommutes(u, v, |u|);
    DotUpToCommutes(u, w, |u|);
  }

  lemma {:induction false} SyndromesSize(k: nat, p: nat, rows: set<nat>, columns: set<nat>, xs: set<Vector>)
    requires OnlyZero(k, rows, columns) && forall r :: r in rows ==> r < p
    requires forall x :: x in xs ==> |x| == k && SupportedBy(x, columns)
    ensures |Syndromes(k, p, rows, xs)| == |xs|
  {
    hide OnlyZero, SupportedBy, Syndrome;
    if x :| x in xs {
      var rest := xs - {x};
      SyndromesSize(k, p, rows, columns, rest);
      var y := Syndrome(k, p, rows, x);
      assert Syndromes(k, p, rows, xs) == Syndromes(k, p, rows, rest) + {y};
      if y in Syndromes(k, p, rows, rest) {
        var x' :| x' in rest && Syndrome(k, p, rows, x') == y;
        SyndromeInjective(k, p, rows, columns, x, x');
      }
    } else {
      assert Syndromes(k, p, rows, xs) == {};
    }
  }

  lemma {:induction false} SameSize(s: set<Vector>, t: set<Vector>)
    requires s <= t && |s| == |t|
    ensures s == t
  {
    if v :| v in t - s {
      assert s <= t - {v};
      SubsetSize(s, t - {v});
    } else {
      assert t - s == {};
    }
  }

  /** As many unknowns as equations with only the zero solution: every right-hand side is met. */
  lemma EverySyndrome(k: nat, p: nat, rows: set<nat>, columns: set<nat>, y: Vector) returns (x: Vector)
    requires OnlyZero(k, rows, columns) && |rows| == |columns|
    requires (forall r :: r in rows ==> r < p) && forall c :: c in columns ==> c < k
    requires |y| == p && SupportedBy(y, rows)
    ensures |x| == k && SupportedBy(x, columns) && Syndrome(k, p, rows, x) == y
  {
    hide OnlyZero, SupportedBy, Vectors, Syndrome, Choices;
    var xs, ys := Vectors(k, columns), Vectors(p, rows);
    forall v | v in xs ensures |v| == k && SupportedBy(v, columns) { InVectors(k, columns, v); }
    SyndromesSize(k, p, rows, columns, xs);
    VectorsCount(k, columns);
    VectorsCount(p, rows);
    var images := Syndromes(k, p, rows, xs);
    forall v | v in images ensures v in ys {
      var u :| u in xs && v == Syndrome(k, p, rows, u);
      SyndromeSupported(k, p, rows, u);
      InVectors(p, rows, v);
    }
    SameSize(images, ys);
    InVectors(p, rows, y);
    assert y in images;
    x :| x in xs && y == Syndrome(k, p, rows, x);
  }

  lemma SyndromeSupported(k: nat, p: nat, rows: set<nat>, x: Vector)
    requires |x| == k
    ensures SupportedBy(Syndrome(k, p, rows, x), rows)
  {
    hide Dot, PowerRow;
  }

  // ----- exchanging rows and columns

  function PartialColumns(k: nat, y: Vector, n: nat): (z: Vector)
    requires n <= |y|
    ensures |z| == k
  {
    seq(k, c requires 0 <= c < k => DotUpTo(PowerRow(|y|, c), y, n))
  }

  /** A double sum taken by rows or by columns. */
  lemma {:induction false} SumsExchange(k: nat, x: Vector, y: Vector, all: Vector, n: nat)
    requires |x| == k && n <= |y| == |all|
    requires forall r :: 0 <= r < n ==> all[r] == Dot(PowerRow(k, r), x)
    ensures DotUpTo(y, all, n) == Dot(PartialColumns(k, y, n), x)
  {
    hide Add, GfMul, PowerRow, Power;
    if n == 0 {
      DotUpToZero(PartialColumns(k, y, 0), x, k);
    } else {
      SumsExchange(k, x, y, all, n - 1);
      var t, row := y[n - 1], PowerRow(k, n - 1);
      var z := PartialColumns(k, y, n - 1);
      forall c | 0 <= c < k ensures PartialColumns(k, y, n)[c] == Add(z[c], GfMul(t, row[c])) {
        assert PowerRow(|y|, c)[n - 1] == Power(c * (n - 1)) == Power((n - 1) * c) == row[c];
        MulCommutes(row[c], t);
      }
      assert PartialColumns(k, y, n) == AddVec(z, Scale(t, row));
      DotUpToAdd(z, Scale(t, row), x, k);
      DotUpToScale(t, row, x, k);
    }
  }

  /** A square system and its transpose have only the zero solution together. */
  lemma Transposed(k: nat, p: nat, rows: set<nat>, columns: set<nat>)
    requires OnlyZero(k, rows, columns) && |rows| == |columns|
    requires (forall r :: r in rows ==> r < p) && forall c :: c in columns ==> c < k
    ensures OnlyZero(p, columns, rows)
  {
    hide OnlyZero, Dot, PowerRow;
    forall y: Vector | Solution(p, columns, rows, y) ensures y == Zero(p) {
      forall r: nat | r < p ensures y[r] == 0 {
        if r in rows { EntryZero(k, p, rows, columns, y, r); }
      }
    }
    OnlyZeroIf(p, columns, rows);
  }

  lemma OnlyZeroIf(k: nat, rows: set<nat>, columns: set<nat>)
    requires forall x: Vector :: Solution(k, rows, columns, x) ==> x == Zero(k)
    ensures OnlyZero(k, rows, columns)
  {
  }

  lemma EntryZero(k: nat, p: nat, rows: set<nat>, columns: set<nat>, y: Vector, r: nat)
    requires OnlyZero(k, rows, columns) && |rows| == |columns|
    requires (forall r :: r in rows ==> r < p) && forall c :: c in columns ==> c < k
    requires Solution(p, columns, rows, y) && r in rows
    ensures y[r] == 0
  {
    hide OnlyZero, Dot, PowerRow, DotUpTo;
    var x := EverySyndrome(k, p, rows, columns, Unit(p, r));
    var all := Syndrome(k, p, Below(p), x);
    SumsExchange(k, x, y, all, p);
    // by columns, every term is zero
    forall c | 0 <= c < k ensures PartialColumns(k, y, p)[c] == 0 || x[c] == 0 {
      if c in columns { FullDot(PowerRow(p, c), y); }
    }
    DotVanishes(PartialColumns(k, y, p), x);
    // by rows, only that of row r is left
    forall q | 0 <= q < p ensures y[q] == 0 || all[q] == Unit(p, r)[q] {
      if q in rows { assert Syndrome(k, p, rows, x)[q] == Unit(p, r)[q]; }
    }
    SameDot(y, all, Unit(p, r));
    FullDot(y, all);
    DotUnit(y, r);
  }

  lemma FullDot(u: Vector, v: Vector)
    requires |u| == |v|
    ensures DotUpTo(u, v, |v|) == Dot(u, v)
  {
  }

  lemma DotVanishes(u: Vector, v: Vector)
    requires |u| == |v| && forall i :: 0 <= i < |u| ==> u[i] == 0 || v[i] == 0
    ensures Dot(u, v) == 0
  {
    DotUpToZero(u, v, |u|);
  }

  /** Where u is zero, the other factor does not matter. */
  lemma SameDot(u: Vector, v: Vector, w: Vector)
    requires |u| == |v| == |w| && forall i :: 0 <= i < |u| ==> u[i] == 0 || v[i] == w[i]
    ensures Dot(u, v) == Dot(u, w)
  {
    SameDotUpTo(u, v, w, |u|);
  }

  lemma {:induction false} SameDotUpTo(u: Vector, v: Vector, w: Vector, n: nat)
    requires n <= |u| == |v| == |w| && forall i :: 0 <= i < |u| ==> u[i] == 0 || v[i] == w[i]
    ensures DotUpTo(u, v, n) == DotUpTo(u, w, n)
  {
    hide Add, GfMul;
    if n > 0 {
      SameDotUpTo(u, v, w, n - 1);
      MulZero(u[n - 1], v[n - 1]);
      MulZero(u[n - 1], w[n - 1]);
    }
  }
}
