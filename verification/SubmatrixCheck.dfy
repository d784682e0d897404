/** are_submatrices_singular: checks every square submatrix of a parity block, and what that says
    about the code: the block has no singular square submatrix exactly when any k rows of the
    generator [I; block] are nonsingular. */
module SubmatrixCheck {
  import opened Bits
  import opened Subsets
  import opened GaloisField
  import opened GaloisTables
  import opened LinearAlgebra
  import opened InvertMatrix
  import opened Generators
  import opened RowChoice

  // ----- masks as lists

  /** The positions below n that a mask selects, in order. */
  function Selected(mask: nat, n: nat): (s: seq<nat>)
    ensures |s| <= n
    ensures forall i :: 0 <= i < |s| ==> s[i] < n && Bit(mask, s[i])
    ensures forall i, j :: 0 <= i < j < |s| ==> s[i] < s[j]
  {
    if n == 0 then [] else Selected(mask, n - 1) + if Bit(mask, n - 1) then [n - 1] else []
  }

  lemma {:induction false} InSelected(mask: nat, n: nat, i: nat)
    ensures i in Selected(mask, n) <==> i < n && Bit(mask, i)
  {
    if n > 0 { InSelected(mask, n - 1, i); }
  }

  lemma {:induction false} BitBelow(low: nat, high: nat, n: nat, i: nat)
    requires low < Pow2(n)
    ensures i < n ==> (Bit(low + high * Pow2(n), i) <==> Bit(low, i))
    ensures i >= n ==> (Bit(low + high * Pow2(n), i) <==> Bit(high, i - n))
    decreases n
  {
    if n > 0 {
      var m := high * Pow2(n - 1);
      DoubleProduct(high, Pow2(n - 1));
      assert (low + 2 * m) / 2 == low / 2 + m;
      if i > 0 { BitBelow(low / 2, high, n - 1, i - 1); }
    }
  }

  lemma {:induction false} SelectedLow(low: nat, high: nat, n: nat, l: nat)
    requires low < Pow2(n) && l <= n
    ensures Selected(low + high * Pow2(n), l) == Selected(low, l)
    decreases l
  {
    if l > 0 {
      BitBelow(low, high, n, l - 1);
      SelectedLow(low, high, n, l - 1);
    }
  }

  lemma {:induction false} SelectedSize(mask: nat, n: nat)
    requires mask < Pow2(n)
    ensures |Selected(mask, n)| == PopCount(mask)
    decreases n
  {
    if n > 0 {
      var p := Pow2(n - 1);
      var high, low := if mask >= p then 1 else 0, if mask >= p then mask - p else mask;
      assert mask == low + high * p;
      BitBelow(low, high, n - 1, n - 1);
      SelectedLow(low, high, n - 1, n - 1);
      PopCountShift(low, high, n - 1);
      SelectedSize(low, n - 1);
    }
  }

  /** The mask of the elements of s below n. */
  ghost function MaskOf(s: set<nat>, n: nat): (mask: nat)
    ensures mask < Pow2(n)
  {
    if n == 0 then 0 else MaskOf(s, n - 1) + if n - 1 in s then Pow2(n - 1) else 0
  }

  lemma {:induction false} BitOfMask(s: set<nat>, n: nat, i: nat)
    ensures Bit(MaskOf(s, n), i) <==> i < n && i in s
  {
    if n == 0 {
      ZeroBits(i);
    } else {
      BitOfMask(s, n - 1, i);
      BitBelow(MaskOf(s, n - 1), if n - 1 in s then 1 else 0, n - 1, i);
      if i >= n { BitHigh(MaskOf(s, n), n, i); }
      if n - 1 !in s && i == n - 1 { ZeroBits(0); }
    }
  }

  /** The list of the mask of a set has the elements of the set, and its size. */
  lemma SelectedOfMask(s: set<nat>, n: nat)
    requires forall i :: i in s ==> i < n
    ensures forall i :: i in Selected(MaskOf(s, n), n) <==> i in s
    ensures |Selected(MaskOf(s, n), n)| == |s| && IsSubset(MaskOf(s, n), n, |s|)
  {
    hide Bit, MaskOf, Selected;
    var list := Selected(MaskOf(s, n), n);
    forall i: nat ensures i in list <==> i in s {
      InSelected(MaskOf(s, n), n, i);
      BitOfMask(s, n, i);
    }
    ElementsSize(list);
    assert Elements(list) == s;
    SelectedSize(MaskOf(s, n), n);
  }

  // ----- submatrices

  /** The entries of v at the selected columns. */
  function Picked(v: Vector, columns: seq<nat>): (w: Vector)
    ensures |w| == |columns|
  {
    seq(|columns|, i requires 0 <= i < |columns| => if columns[i] < |v| then v[columns[i]] else 0)
  }

  /** m consists of the selected rows and columns of v. */
  ghost predicate IsSubmatrix(m: seq<Byte>, v: seq<Byte>, cols: nat, rows: seq<nat>, columns: seq<nat>) {
    |rows| == |columns| &&
    forall r :: 0 <= r < |rows| ==> Row(m, |rows|, r) == Picked(Row(v, cols, rows[r]), columns)
  }

  /** The submatrix of the selected rows and columns is nonsingular. */
  ghost predicate SubmatrixNonsingular(v: seq<Byte>, cols: nat, rows: seq<nat>, columns: seq<nat>) {
    forall y: Vector :: |y| == |columns| && KilledByRows(v, cols, rows, columns, y) ==> y == Zero(|columns|)
  }

  ghost predicate KilledByRows(v: seq<Byte>, cols: nat, rows: seq<nat>, columns: seq<nat>, y: Vector)
    requires |y| == |columns|
  {
    forall r :: 0 <= r < |rows| ==> Dot(Picked(Row(v, cols, rows[r]), columns), y) == 0
  }

  /** Square submatrices are given by masks, as the enumeration gives them. */
  ghost predicate AllSubmatricesNonsingular(v: seq<Byte>, rows: nat, cols: nat) {
    forall s: nat, r: nat, c: nat :: s > 0 && IsSubset(r, rows, s) && IsSubset(c, cols, s) ==>
      SubmatrixNonsingular(v, cols, Selected(r, rows), Selected(c, cols))
  }

  lemma SubmatrixKills(m: seq<Byte>, v: seq<Byte>, cols: nat, rows: seq<nat>, columns: seq<nat>, y: Vector)
    requires IsSubmatrix(m, v, cols, rows, columns) && |y| == |columns|
    ensures MulVec(m, |rows|, y) == Zero(|rows|) <==> KilledByRows(v, cols, rows, columns, y)
  {
    hide Row, Dot, Picked;
    if KilledByRows(v, cols, rows, columns, y) {
      forall r | 0 <= r < |rows| ensures MulVec(m, |rows|, y)[r] == 0 { }
    }
    if MulVec(m, |rows|, y) == Zero(|rows|) {
      forall r | 0 <= r < |rows| ensures Dot(Picked(Row(v, cols, rows[r]), columns), y) == 0 {
        assert MulVec(m, |rows|, y)[r] == 0;
      }
    }
  }

  lemma SubmatrixIsNonsingular(m: seq<Byte>, v: seq<Byte>, cols: nat, rows: seq<nat>, columns: seq<nat>)
    requires IsSubmatrix(m, v, cols, rows, columns)
    ensures Nonsingular(m, |rows|) <==> SubmatrixNonsingular(v, cols, rows, columns)
  {
    hide MulVec, KilledByRows;
    forall y: Vector | |y| == |columns|
      ensures MulVec(m, |rows|, y) == Zero(|rows|) <==> KilledByRows(v, cols, rows, columns, y)
    {
      SubmatrixKills(m, v, cols, rows, columns, y);
    }
  }

  // ----- gen_sub_matrix

  lemma SelectedNext(mask: nat, n: nat)
    ensures Selected(mask, n + 1) == Selected(mask, n) + if Bit(mask, n) then [n] else []
    ensures Selected(mask, 0) == []
  {
  }

  lemma {:induction false} SelectedPrefix(mask: nat, l: nat, n: nat)
    requires l <= n
    ensures Selected(mask, l) <= Selected(mask, n)
  {
    if l < n { SelectedPrefix(mask, l, n - 1); }
  }

  /** Writes the next row of the submatrix: row i of inMatrix at the selected columns. */
  method SubMatrixRow(outMatrix: array<Byte>, dim: nat, inMatrix: array<Byte>, off: nat, rows: nat, cols: nat,
                      colIndicator: nat, i: nat, r: nat, ghost base: seq<Byte>)
    requires outMatrix != inMatrix && dim * dim <= outMatrix.Length && off + rows * cols <= inMatrix.Length
    requires |Selected(colIndicator, cols)| == dim && i < rows && r < dim
    requires SameFrom(base, outMatrix[..], dim * dim)
    modifies outMatrix
    ensures SameFrom(base, outMatrix[..], dim * dim)
    ensures forall l :: 0 <= l < dim && l != r ==> Row(outMatrix[..], dim, l) == Row(old(outMatrix[..]), dim, l)
    ensures Row(outMatrix[..], dim, r) == Picked(Row(inMatrix[off..], cols, i), Selected(colIndicator, cols))
  {
    hide Row, SameFrom, Selected, Bit, And, Pow2, Picked, SameBelow;
    ghost var columns, source := Selected(colIndicator, cols), inMatrix[off..];
    ghost var wanted := Picked(Row(source, cols, i), columns);
    var s := 0;
    SameBelowMore(Row(outMatrix[..], dim, r), wanted, 0);
    SelectedNext(colIndicator, 0);
    for j := 0 to cols
      invariant inMatrix[off..] == source
      invariant SameFrom(base, outMatrix[..], dim * dim)
      invariant s == |Selected(colIndicator, j)|
      invariant forall l :: 0 <= l < dim && l != r ==> Row(outMatrix[..], dim, l) == Row(old(outMatrix[..]), dim, l)
      invariant SameBelow(Row(outMatrix[..], dim, r), wanted, s)
    {
      AndMask(colIndicator, j);
      SelectedNext(colIndicator, j);
      SelectedPrefix(colIndicator, j + 1, cols);
      if And(colIndicator, Pow2(j)) == 0 {
        continue;
      }
      assert columns[s] == j;
      EntryIndex(source, rows, cols, i, j);
      PickedAt(Row(source, cols, i), columns, s);
      SameBelowMore(Row(outMatrix[..], dim, r), wanted, s);
      RowStart(dim, r);
      SetEntry(outMatrix, dim, dim, r, s, dim * r + s, inMatrix[off + cols * i + j], base);
      s := s + 1;
    }
    SameBelowMore(Row(outMatrix[..], dim, r), wanted, dim);
  }

  ghost predicate SameBelow(u: Vector, w: Vector, n: nat) {
    |u| == |w| && forall t :: 0 <= t < n && t < |w| ==> u[t] == w[t]
  }

  lemma SameBelowMore(u: Vector, w: Vector, n: nat)
    requires |u| == |w| && (n == 0 || SameBelow(u, w, n))
    ensures SameBelow(u, w, n)
    ensures n < |w| ==> SameBelow(u[n := w[n]], w, n + 1)
    ensures n == |w| ==> u == w
  {
  }

  lemma PickedAt(v: Vector, columns: seq<nat>, s: nat)
    requires s < |columns| && columns[s] < |v|
    ensures Picked(v, columns)[s] == v[columns[s]]
  {
  }

  lemma EntryIndex(m: seq<Byte>, rows: nat, cols: nat, i: nat, j: nat)
    requires rows * cols <= |m| && i < rows && j < cols
    ensures 0 <= cols * i + j < rows * cols && Row(m, cols, i)[j] == m[cols * i + j]
  {
    RowFits(rows, cols, i);
  }

  lemma RowStart(dim: nat, r: nat)
    ensures dim * r == r * dim
  {
  }

  method GenSubMatrix(outMatrix: array<Byte>, dim: nat, inMatrix: array<Byte>, off: nat, rows: nat, cols: nat,
                      rowIndicator: nat, colIndicator: nat)
    requires outMatrix != inMatrix && dim * dim <= outMatrix.Length && off + rows * cols <= inMatrix.Length
    requires |Selected(rowIndicator, rows)| == dim && |Selected(colIndicator, cols)| == dim
    modifies outMatrix
    ensures IsSubmatrix(outMatrix[..], inMatrix[off..], cols, Selected(rowIndicator, rows),
                        Selected(colIndicator, cols))
  {
    hide Row, SameFrom, Selected, Bit, And, Pow2, Picked;
    ghost var chosen, columns := Selected(rowIndicator, rows), Selected(colIndicator, cols);
    ghost var source, base := inMatrix[off..], outMatrix[..];
    SameFromSelf(base, dim * dim);
    var r := 0;
    SelectedNext(rowIndicator, 0);
    for i := 0 to rows
      invariant inMatrix[off..] == source
      invariant SameFrom(base, outMatrix[..], dim * dim)
      invariant r == |Selected(rowIndicator, i)|
      invariant forall l :: 0 <= l < r && l < dim ==>
        Row(outMatrix[..], dim, l) == Picked(Row(source, cols, chosen[l]), columns)
    {
      AndMask(rowIndicator, i);
      SelectedNext(rowIndicator, i);
      SelectedPrefix(rowIndicator, i + 1, rows);
      if And(rowIndicator, Pow2(i)) == 0 {
        continue;
      }
      assert chosen[r] == i;
      SubMatrixRow(outMatrix, dim, inMatrix, off, rows, cols, colIndicator, i, r, base);
      r := r + 1;
    }
  }

  // ----- are_submatrices_singular

  /** All submatrices with the columns of c and rows of a mask below limit are nonsingular. */
  ghost predicate RowsChecked(v: seq<Byte>, rows: nat, cols: nat, s: nat, c: nat, limit: nat) {
    forall r: nat :: r < limit && IsSubset(r, rows, s) ==>
      SubmatrixNonsingular(v, cols, Selected(r, rows), Selected(c, cols))
  }

  ghost predicate ColumnsChecked(v: seq<Byte>, rows: nat, cols: nat, s: nat, limit: nat) {
    forall c: nat :: c < limit && IsSubset(c, cols, s) ==> RowsChecked(v, rows, cols, s, c, Pow2(rows))
  }

  ghost predicate SizesChecked(v: seq<Byte>, rows: nat, cols: nat, limit: nat) {
    forall s: nat :: 0 < s < limit ==> ColumnsChecked(v, rows, cols, s, Pow2(cols))
  }

  lemma FoundSingular(v: seq<Byte>, rows: nat, cols: nat, s: nat, r: nat, c: nat)
    requires s > 0 && IsSubset(r, rows, s) && IsSubset(c, cols, s)
    requires !SubmatrixNonsingular(v, cols, Selected(r, rows), Selected(c, cols))
    ensures !AllSubmatricesNonsingular(v, rows, cols)
  {
  }

  lemma AllSizesChecked(v: seq<Byte>, rows: nat, cols: nat, limit: nat)
    requires SizesChecked(v, rows, cols, limit) && (limit > rows || limit > cols)
    ensures AllSubmatricesNonsingular(v, rows, cols)
  {
    hide PopCount, Pow2, SubmatrixNonsingular;
    forall s: nat, r: nat, c: nat | s > 0 && IsSubset(r, rows, s) && IsSubset(c, cols, s)
      ensures SubmatrixNonsingular(v, cols, Selected(r, rows), Selected(c, cols))
    {
      PopCountBound(r, rows);
      PopCountBound(c, cols);
      assert ColumnsChecked(v, rows, cols, s, Pow2(cols));
      assert RowsChecked(v, rows, cols, s, c, Pow2(rows));
    }
  }

  /** One more mask has been checked, and nothing lies between it and the next. */
  lemma RowChecked(v: seq<Byte>, rows: nat, cols: nat, s: nat, c: nat, r: nat, next: nat)
    requires RowsChecked(v, rows, cols, s, c, r) && SubmatrixNonsingular(v, cols, Selected(r, rows), Selected(c, cols))
    requires forall y: nat :: r < y < next ==> !IsSubset(y, rows, s)
    ensures RowsChecked(v, rows, cols, s, c, next)
  {
    hide IsSubset, SubmatrixNonsingular, Selected;
  }

  lemma ColumnChecked(v: seq<Byte>, rows: nat, cols: nat, s: nat, c: nat, next: nat)
    requires ColumnsChecked(v, rows, cols, s, c) && RowsChecked(v, rows, cols, s, c, Pow2(rows))
    requires forall y: nat :: c < y < next ==> !IsSubset(y, cols, s)
    ensures ColumnsChecked(v, rows, cols, s, next)
  {
    hide IsSubset, RowsChecked;
  }

  lemma NothingChecked(v: seq<Byte>, rows: nat, cols: nat, s: nat, c: nat)
    requires 0 < s
    ensures s <= rows ==> RowsChecked(v, rows, cols, s, c, Pow2(s) - 1)
    ensures s <= cols ==> ColumnsChecked(v, rows, cols, s, Pow2(s) - 1)
  {
    hide PopCount, Pow2, SubmatrixNonsingular, Selected;
    if s <= rows { FirstSubset(rows, s); }
    if s <= cols { FirstSubset(cols, s); }
  }

  /** The innermost loop: all choices of subsize rows, for one choice of columns. */
  method CheckRows(v: array<Byte>, off: nat, rows: nat, cols: nat, matrix: array<Byte>, invertMatrix: array<Byte>,
                   subsize: nat, colIndicator: nat)
    returns (singular: bool)
    requires matrix != v && invertMatrix != v && matrix != invertMatrix
    requires off + rows * cols <= v.Length && rows <= 63 && 0 < subsize <= rows
    requires subsize * subsize <= matrix.Length && subsize * subsize <= invertMatrix.Length
    requires IsSubset(colIndicator, cols, subsize)
    modifies matrix, invertMatrix
    ensures singular ==> !AllSubmatricesNonsingular(v[off..], rows, cols)
    ensures !singular ==> RowsChecked(v[off..], rows, cols, subsize, colIndicator, Pow2(rows))
  {
    hide *;
    ghost var block := v[off..];
    SubsetSize(colIndicator, cols, subsize);
    FirstSubset(rows, subsize);
    NothingChecked(block, rows, cols, subsize, colIndicator);
    var rowIndicator := Pow2(subsize) - 1;
    while true
      invariant v[off..] == block
      invariant rowIndicator > 0 && IsSubset(rowIndicator, rows, subsize)
      invariant RowsChecked(block, rows, cols, subsize, colIndicator, rowIndicator)
      decreases Pow2(rows) - rowIndicator
    {
      SubsetSize(rowIndicator, rows, subsize);
      GenSubMatrix(matrix, subsize, v, off, rows, cols, rowIndicator, colIndicator);
      SubmatrixIsNonsingular(matrix[..], block, cols, Selected(rowIndicator, rows), Selected(colIndicator, cols));
      var inverted := GfInvertMatrix(matrix, invertMatrix, subsize);
      if inverted != 0 {
        FoundSingular(block, rows, cols, subsize, rowIndicator, colIndicator);
        return true;
      }
      var next, wrapped := NextSubset(rowIndicator, rows, subsize);
      if wrapped != 0 {
        RowChecked(block, rows, cols, subsize, colIndicator, rowIndicator, Pow2(rows));
        return false;
      }
      RowChecked(block, rows, cols, subsize, colIndicator, rowIndicator, next);
      SubsetSize(next, rows, subsize);
      rowIndicator := next;
    }
  }

  lemma SubsetSize(mask: nat, n: nat, s: nat)
    requires IsSubset(mask, n, s)
    ensures |Selected(mask, n)| == s && mask < Pow2(n)
  {
    SelectedSize(mask, n);
  }

  /** All choices of subsize columns. */
  method CheckColumns(v: array<Byte>, off: nat, rows: nat, cols: nat, matrix: array<Byte>, invertMatrix: array<Byte>,
                      subsize: nat)
    returns (singular: bool)
    requires matrix != v && invertMatrix != v && matrix != invertMatrix
    requires off + rows * cols <= v.Length && rows <= 63 && cols <= 63 && 0 < subsize <= rows && subsize <= cols
    requires subsize * subsize <= matrix.Length && subsize * subsize <= invertMatrix.Length
    modifies matrix, invertMatrix
    ensures singular ==> !AllSubmatricesNonsingular(v[off..], rows, cols)
    ensures !singular ==> ColumnsChecked(v[off..], rows, cols, subsize, Pow2(cols))
  {
    hide *;
    ghost var block := v[off..];
    FirstSubset(cols, subsize);
    NothingChecked(block, rows, cols, subsize, 0);
    var colIndicator := Pow2(subsize) - 1;
    while true
      invariant v[off..] == block
      invariant colIndicator > 0 && IsSubset(colIndicator, cols, subsize)
      invariant ColumnsChecked(block, rows, cols, subsize, colIndicator)
      decreases Pow2(cols) - colIndicator
    {
      singular := CheckRows(v, off, rows, cols, matrix, invertMatrix, subsize, colIndicator);
      if singular {
        return;
      }
      var next, wrapped := NextSubset(colIndicator, cols, subsize);
      if wrapped != 0 {
        ColumnChecked(block, rows, cols, subsize, colIndicator, Pow2(cols));
        return false;
      }
      ColumnChecked(block, rows, cols, subsize, colIndicator, next);
      SubsetSize(next, cols, subsize);
      colIndicator := next;
    }
  }

  /** Returns 0 exactly when no square submatrix of the rows x cols block at v[off] is singular. */
  method AreSubmatricesSingular(v: array<Byte>, off: nat, rows: nat, cols: nat) returns (ret: int)
    requires off + rows * cols <= v.Length && rows <= 63 && cols <= 63
    ensures ret == 0 || ret == 1
    ensures ret == 0 <==> AllSubmatricesNonsingular(v[off..], rows, cols)
  {
    hide *;
    var most := if rows <= cols then rows else cols;
    var matrix, invertMatrix := new Byte[most * most], new Byte[most * most];
    ghost var block := v[off..];
    NoSizeChecked(block, rows, cols);
    for subsize := 1 to most + 1
      invariant v[off..] == block && SizesChecked(block, rows, cols, subsize)
    {
      Squares(subsize, most);
      var singular := CheckColumns(v, off, rows, cols, matrix, invertMatrix, subsize);
      if singular {
        return 1;
      }
      SizeChecked(block, rows, cols, subsize);
    }
    AllSizesChecked(block, rows, cols, most + 1);
    return 0;
  }

  lemma Squares(a: nat, b: nat)
    requires a <= b
    ensures a * a <= b * b
  {
    assert b * b - a * a == (b - a) * (b + a);
  }

  lemma NoSizeChecked(v: seq<Byte>, rows: nat, cols: nat)
    ensures SizesChecked(v, rows, cols, 1)
  {
  }

  lemma SizeChecked(v: seq<Byte>, rows: nat, cols: nat, s: nat)
    requires SizesChecked(v, rows, cols, s) && ColumnsChecked(v, rows, cols, s, Pow2(cols))
    ensures SizesChecked(v, rows, cols, s + 1)
  {
    hide ColumnsChecked;
  }

  // ----- what the check means for the code

  ghost predicate Increasing(columns: seq<nat>) {
    forall i, j :: 0 <= i < j < |columns| ==> columns[i] < columns[j]
  }

  /** x is zero at the columns below n that are not selected. */
  ghost predicate ZeroElsewhere(x: Vector, columns: seq<nat>, n: nat) {
    forall c: nat :: c < n && c < |x| && c !in columns ==> x[c] == 0
  }

  lemma DropLastColumn(x: Vector, columns: seq<nat>, n: nat)
    requires n > 0 && Increasing(columns) && n - 1 in columns && ZeroElsewhere(x, columns, n)
    requires forall i :: 0 <= i < |columns| ==> columns[i] < n
    ensures |columns| > 0 && columns[|columns| - 1] == n - 1
    ensures var front := columns[..|columns| - 1];
      && Increasing(front) && ZeroElsewhere(x, front, n - 1)
      && forall i :: 0 <= i < |front| ==> front[i] < n - 1
  {
    var last := |columns| - 1;
    var i :| 0 <= i < |columns| && columns[i] == n - 1;
    assert columns[i] <= columns[last];
    var front := columns[..last];
    forall c: nat | c < n - 1 && c < |x| && c !in front ensures x[c] == 0 {
      assert columns == front + [n - 1];
      assert c !in columns;
    }
  }

  /** A sum over all columns of terms that vanish off the selected ones is the sum over those. */
  lemma {:induction false} DotPicked(u: Vector, x: Vector, columns: seq<nat>, n: nat)
    requires n <= |u| == |x| && Increasing(columns) && ZeroElsewhere(x, columns, n)
    requires forall i :: 0 <= i < |columns| ==> columns[i] < n
    ensures Dot(Picked(u, columns), Picked(x, columns)) == DotUpTo(u, x, n)
    decreases n
  {
    hide Add, GfMul;
    if n == 0 {
      assert columns == [];
    } else if n - 1 in columns {
      DropLastColumn(x, columns, n);
      hide Increasing, ZeroElsewhere;
      var front := columns[..|columns| - 1];
      DotPicked(u, x, front, n - 1);
      DotUpToCongruence(Picked(u, front), Picked(x, front), Picked(u, columns), Picked(x, columns), |front|);
    } else {
      assert x[n - 1] == 0;
      assert forall i :: 0 <= i < |columns| ==> columns[i] < n - 1 by {
        forall i | 0 <= i < |columns| ensures columns[i] < n - 1 { assert columns[i] in columns; }
      }
      DotPicked(u, x, columns, n - 1);
      MulZero(u[n - 1], x[n - 1]);
      AddLaws(DotUpTo(u, x, n - 1), 0, 0);
    }
  }

  /** The matrix [I; v] with k columns. */
  ghost predicate IsSystematic(a: seq<Byte>, v: seq<Byte>, k: nat, p: nat) {
    && (forall i :: 0 <= i < k ==> Row(a, k, i) == Unit(k, i))
    && forall i :: 0 <= i < p ==> Row(a, k, k + i) == Row(v, k, i)
  }

  /** A vector killed by the chosen rows is killed, on the free columns, by the rows of the block. */
  lemma KilledInBlock(a: seq<Byte>, v: seq<Byte>, k: nat, p: nat, rows: set<nat>, chosen: seq<nat>, columns: seq<nat>,
                      x: Vector)
    requires IsSystematic(a, v, k, p) && |x| == k && Kills(a, k, rows, x)
    requires Increasing(columns) && ZeroElsewhere(x, columns, k) && forall i :: 0 <= i < |columns| ==> columns[i] < k
    requires forall i :: 0 <= i < |chosen| ==> chosen[i] < p && k + chosen[i] in rows
    ensures KilledByRows(v, k, chosen, columns, Picked(x, columns))
  {
    hide Row, Dot, Picked, Increasing, ZeroElsewhere;
    forall r | 0 <= r < |chosen| ensures Dot(Picked(Row(v, k, chosen[r]), columns), Picked(x, columns)) == 0 {
      assert Row(a, k, k + chosen[r]) == Row(v, k, chosen[r]);
      assert Dot(Row(a, k, k + chosen[r]), x) == 0;
      DotPicked(Row(v, k, chosen[r]), x, columns, k);
      DotIsFull(Row(v, k, chosen[r]), x);
    }
  }

  /** If no square submatrix is singular, any k rows of [I; v] are nonsingular. */
  lemma ChosenRowsNonsingular(a: seq<Byte>, v: seq<Byte>, k: nat, p: nat, rows: set<nat>)
    requires IsSystematic(a, v, k, p) && AllSubmatricesNonsingular(v, p, k)
    requires |rows| == k && forall r :: r in rows ==> r < k + p
    ensures RowsNonsingular(a, k, rows)
  {
    hide *;
    ParityCount(k, rows);
    var free, block := FreeColumns(k, rows), ParityNumbers(k, rows);
    SelectedOfMask(free, k);
    SelectedOfMask(block, p);
    var c, r := MaskOf(free, k), MaskOf(block, p);
    var columns, chosen := Selected(c, k), Selected(r, p);
    SelectedIncreases(c, k);
    forall i | 0 <= i < |chosen| ensures chosen[i] < p && k + chosen[i] in rows { assert chosen[i] in chosen; }
    forall i | 0 <= i < |columns| ensures columns[i] < k { assert columns[i] in columns; }
    forall x: Vector | |x| == k && Kills(a, k, rows, x) ensures x == Zero(k) {
      IdentityOfSystematic(a, v, k, p);
      SupportIsFree(a, k, rows, x);
      ZeroOffSupport(x, free, columns);
      KilledInBlock(a, v, k, p, rows, chosen, columns, x);
      NoSubmatrixKills(v, p, k, |free|, r, c, Picked(x, columns));
      PickedZero(x, columns);
    }
    RowsNonsingularBy(a, k, rows);
  }

  lemma RowsNonsingularBy(a: seq<Byte>, k: nat, rows: set<nat>)
    requires forall x: Vector :: |x| == k && Kills(a, k, rows, x) ==> x == Zero(k)
    ensures RowsNonsingular(a, k, rows)
  {
  }

  lemma SelectedIncreases(mask: nat, n: nat)
    ensures Increasing(Selected(mask, n))
  {
  }

  lemma IdentityOfSystematic(a: seq<Byte>, v: seq<Byte>, k: nat, p: nat)
    requires IsSystematic(a, v, k, p)
    ensures forall i :: 0 <= i < k ==> Row(a, k, i) == Unit(k, i)
  {
  }

  lemma ZeroOffSupport(x: Vector, free: set<nat>, columns: seq<nat>)
    requires SupportedBy(x, free) && forall i: nat :: i in columns <==> i in free
    ensures ZeroElsewhere(x, columns, |x|)
  {
  }

  /** A vector killed by all rows of a submatrix is zero. */
  lemma NoSubmatrixKills(v: seq<Byte>, p: nat, k: nat, s: nat, r: nat, c: nat, y: Vector)
    requires AllSubmatricesNonsingular(v, p, k) && IsSubset(r, p, s) && IsSubset(c, k, s)
    requires |y| == |Selected(c, k)| == s && KilledByRows(v, k, Selected(r, p), Selected(c, k), y)
    ensures y == Zero(s)
  {
    hide KilledByRows, IsSubset, Selected;
    if s > 0 {
      assert SubmatrixNonsingular(v, k, Selected(r, p), Selected(c, k));
    }
  }

  lemma DotIsFull(u: Vector, x: Vector)
    requires |u| == |x|
    ensures DotUpTo(u, x, |x|) == Dot(u, x)
  {
  }

  lemma PickedZero(x: Vector, columns: seq<nat>)
    requires Picked(x, columns) == Zero(|columns|)
    requires ZeroElsewhere(x, columns, |x|)
    ensures x == Zero(|x|)
  {
    forall c: nat | c < |x| ensures x[c] == 0 {
      if c in columns {
        var i :| 0 <= i < |columns| && columns[i] == c;
        assert Picked(x, columns)[i] == 0;
      }
    }
  }

  // ----- the converse

  /** The vector that has y at the selected columns and 0 elsewhere. */
  function Spread(y: Vector, columns: seq<nat>, k: nat): (x: Vector)
    requires |y| == |columns|
    ensures |x| == k
  {
    if columns == [] then Zero(k)
    else
      var last := |columns| - 1;
      var x := Spread(y[..last], columns[..last], k);
      if columns[last] < k then x[columns[last] := y[last]] else x
  }

  lemma SpreadStep(y: Vector, columns: seq<nat>, k: nat)
    requires |y| == |columns| > 0 && columns[|columns| - 1] < k
    ensures var last := |columns| - 1;
      Spread(y, columns, k) == Spread(y[..last], columns[..last], k)[columns[last] := y[last]]
  {
  }

  lemma {:induction false} SpreadProperties(y: Vector, columns: seq<nat>, k: nat)
    requires |y| == |columns| && Increasing(columns) && forall i :: 0 <= i < |columns| ==> columns[i] < k
    ensures Picked(Spread(y, columns, k), columns) == y
    ensures ZeroElsewhere(Spread(y, columns, k), columns, k)
  {
    if columns != [] {
      var last := |columns| - 1;
      SpreadStep(y, columns, k);
      SpreadProperties(y[..last], columns[..last], k);
      hide Spread;
      SpreadMore(y, columns, k, Spread(y[..last], columns[..last], k));
    }
  }

  lemma SpreadMore(y: Vector, columns: seq<nat>, k: nat, x: Vector)
    requires |y| == |columns| > 0 && |x| == k && Increasing(columns)
    requires forall i :: 0 <= i < |columns| ==> columns[i] < k
    requires var last := |columns| - 1;
      Picked(x, columns[..last]) == y[..last] && ZeroElsewhere(x, columns[..last], k)
    ensures var z := x[columns[|columns| - 1] := y[|columns| - 1]];
      Picked(z, columns) == y && ZeroElsewhere(z, columns, k)
  {
    var last := |columns| - 1;
    var z := x[columns[last] := y[last]];
    assert columns == columns[..last] + [columns[last]];
    forall i | 0 <= i < last ensures z[columns[i]] == y[i] {
      assert Picked(x, columns[..last])[i] == y[..last][i];
      assert columns[i] < columns[last];
    }
  }

  lemma ChosenSize(chosen: seq<nat>, columns: seq<nat>, k: nat)
    requires Increasing(chosen) && Increasing(columns) && |chosen| == |columns|
    requires forall i :: 0 <= i < |columns| ==> columns[i] < k
    ensures |RowsOf(k, Elements(chosen), Elements(columns))| == k
  {
    hide Elements, Raised, RowsOf;
    ElementsSize(columns);
    ElementsSize(chosen);
    RaisedSize(k, Elements(chosen));
    RowsOfSize(k, Elements(chosen), Elements(columns));
  }

  /** If any k rows are nonsingular, so is every square submatrix. */
  lemma SubmatrixFromRows(a: seq<Byte>, v: seq<Byte>, k: nat, p: nat, chosen: seq<nat>, columns: seq<nat>)
    requires IsSystematic(a, v, k, p) && AnyRowsNonsingular(a, k + p, k)
    requires Increasing(chosen) && Increasing(columns) && |chosen| == |columns|
    requires forall i :: 0 <= i < |columns| ==> columns[i] < k
    requires forall i :: 0 <= i < |chosen| ==> chosen[i] < p
    ensures SubmatrixNonsingular(v, k, chosen, columns)
  {
    hide Row, Dot, Picked, Spread, Increasing, ZeroElsewhere, RowsNonsingular;
    var rows := RowsOf(k, Elements(chosen), Elements(columns));
    ChosenSize(chosen, columns, k);
    assert RowsNonsingular(a, k, rows);
    forall y: Vector | |y| == |columns| && KilledByRows(v, k, chosen, columns, y) ensures y == Zero(|columns|) {
      var x := Spread(y, columns, k);
      SpreadProperties(y, columns, k);
      SpreadKilled(a, v, k, p, chosen, columns, x);
      KilledIsZero(a, k, rows, x);
      ZeroPicked(k, columns);
    }
  }

  lemma KilledIsZero(a: seq<Byte>, k: nat, rows: set<nat>, x: Vector)
    requires RowsNonsingular(a, k, rows) && |x| == k && Kills(a, k, rows, x)
    ensures x == Zero(k)
  {
  }

  lemma ZeroPicked(k: nat, columns: seq<nat>)
    ensures Picked(Zero(k), columns) == Zero(|columns|)
  {
  }

  lemma SpreadKilled(a: seq<Byte>, v: seq<Byte>, k: nat, p: nat, chosen: seq<nat>, columns: seq<nat>, x: Vector)
    requires IsSystematic(a, v, k, p) && |x| == k && Increasing(columns) && ZeroElsewhere(x, columns, k)
    requires forall i :: 0 <= i < |columns| ==> columns[i] < k
    requires forall i :: 0 <= i < |chosen| ==> chosen[i] < p
    requires KilledByRows(v, k, chosen, columns, Picked(x, columns))
    ensures Kills(a, k, RowsOf(k, Elements(chosen), Elements(columns)), x)
  {
    hide Row, Dot, Picked, Increasing, IsSystematic, KilledByRows, ZeroElsewhere, RowsOf;
    forall r | r in RowsOf(k, Elements(chosen), Elements(columns)) ensures Dot(Row(a, k, r), x) == 0 {
      if r < k {
        OffColumns(a, v, k, p, columns, x, r);
      } else {
        var i :| 0 <= i < |chosen| && chosen[i] == r - k;
        InBlockRows(a, v, k, p, chosen, columns, x, i);
      }
    }
  }

  lemma OffColumns(a: seq<Byte>, v: seq<Byte>, k: nat, p: nat, columns: seq<nat>, x: Vector, r: nat)
    requires IsSystematic(a, v, k, p) && |x| == k && ZeroElsewhere(x, columns, k) && r < k && r !in columns
    ensures Dot(Row(a, k, r), x) == 0
  {
    hide Row, Dot;
    DotUnit(x, r);
  }

  lemma InBlockRows(a: seq<Byte>, v: seq<Byte>, k: nat, p: nat, chosen: seq<nat>, columns: seq<nat>, x: Vector, i: nat)
    requires IsSystematic(a, v, k, p) && |x| == k && Increasing(columns) && ZeroElsewhere(x, columns, k)
    requires forall j :: 0 <= j < |columns| ==> columns[j] < k
    requires i < |chosen| && chosen[i] < p && KilledByRows(v, k, chosen, columns, Picked(x, columns))
    ensures Dot(Row(a, k, k + chosen[i]), x) == 0
  {
    hide Row, Dot, Picked, Increasing, ZeroElsewhere;
    DotPicked(Row(v, k, chosen[i]), x, columns, k);
    DotIsFull(Row(v, k, chosen[i]), x);
  }

  /** The block has no singular square submatrix exactly when any k rows of [I; v] are nonsingular,
      that is, when any p lost buffers can be recovered. */
  lemma SubmatricesDecideRecovery(a: seq<Byte>, v: seq<Byte>, k: nat, p: nat)
    requires IsSystematic(a, v, k, p)
    ensures AllSubmatricesNonsingular(v, p, k) <==> AnyRowsNonsingular(a, k + p, k)
  {
    hide IsSystematic, RowsNonsingular, SubmatrixNonsingular, Selected, PopCount, Pow2, Bit;
    if AllSubmatricesNonsingular(v, p, k) {
      forall rows: set<nat> | |rows| == k && (forall r :: r in rows ==> r < k + p) ensures RowsNonsingular(a, k, rows) {
        ChosenRowsNonsingular(a, v, k, p, rows);
      }
    }
    if AnyRowsNonsingular(a, k + p, k) {
      forall s: nat, r: nat, c: nat | s > 0 && IsSubset(r, p, s) && IsSubset(c, k, s)
        ensures SubmatrixNonsingular(v, k, Selected(r, p), Selected(c, k))
      {
        SubsetSize(r, p, s);
        SubsetSize(c, k, s);
        SelectedIncreases(r, p);
        SelectedIncreases(c, k);
        SubmatrixFromRows(a, v, k, p, Selected(r, p), Selected(c, k));
      }
    }
  }
}
