/** Recovering lost buffers: survivor selection, inversion, and re-encoding with the combined
    coefficients, as the decode routines of erasure_code_perf.c and erasure_code_update_perf.c do. */
module Recovery {
  import opened Arithmetic
  import opened GaloisField
  import opened GaloisTables
  import opened LinearAlgebra
  import opened InvertMatrix
  import opened Generators
  import opened RowChoice
  import opened MulTables
  import opened Encode
  import CauchyCode
  import VandermondeCode

  // ----- choosing survivors

  /** The buffers below m that are not marked as lost, in order. */
  function Survivors(err: seq<Byte>, m: nat): (s: seq<nat>)
    requires m <= |err|
  {
    if m == 0 then [] else Survivors(err, m - 1) + if err[m - 1] == 0 then [m - 1] else []
  }

  lemma {:induction false} SurvivorsIncrease(err: seq<Byte>, m: nat)
    requires m <= |err|
    ensures forall i :: 0 <= i < |Survivors(err, m)| ==> Survivors(err, m)[i] < m && err[Survivors(err, m)[i]] == 0
    ensures forall i, j :: 0 <= i < j < |Survivors(err, m)| ==> Survivors(err, m)[i] < Survivors(err, m)[j]
  {
    if m > 0 { SurvivorsIncrease(err, m - 1); }
  }

  lemma {:induction false} SurvivorsPrefix(err: seq<Byte>, l: nat, m: nat)
    requires l <= m <= |err|
    ensures Survivors(err, l) <= Survivors(err, m)
  {
    if l < m { SurvivorsPrefix(err, l, m - 1); }
  }

  /** b consists of the chosen rows of a. */
  ghost predicate ConsistsOf(b: seq<Byte>, a: seq<Byte>, k: nat, rows: seq<nat>) {
    |rows| == k && forall i :: 0 <= i < k ==> Row(b, k, i) == Row(a, k, rows[i])
  }

  lemma ChosenKill(b: seq<Byte>, a: seq<Byte>, k: nat, rows: seq<nat>, x: Vector)
    requires ConsistsOf(b, a, k, rows) && |x| == k
    ensures MulVec(b, k, x) == Zero(k) <==> Kills(a, k, Elements(rows), x)
  {
    hide Row, Dot, Elements;
    if Kills(a, k, Elements(rows), x) {
      forall i | 0 <= i < k ensures MulVec(b, k, x)[i] == 0 {
        assert rows[i] in Elements(rows);
      }
    }
    if MulVec(b, k, x) == Zero(k) {
      forall r | r in Elements(rows) ensures Dot(Row(a, k, r), x) == 0 {
        var i :| 0 <= i < k && rows[i] == r;
        assert MulVec(b, k, x)[i] == 0;
      }
    }
  }

  lemma ChosenNonsingular(b: seq<Byte>, a: seq<Byte>, k: nat, rows: seq<nat>)
    requires ConsistsOf(b, a, k, rows)
    ensures Nonsingular(b, k) <==> RowsNonsingular(a, k, Elements(rows))
  {
    hide Kills, MulVec, Elements, ConsistsOf;
    forall x: Vector | |x| == k ensures MulVec(b, k, x) == Zero(k) <==> Kills(a, k, Elements(rows), x) {
      ChosenKill(b, a, k, rows, x);
    }
  }

  // ----- combined coefficients

  /** Row v of the product v * d: the coefficients that rebuild a buffer from the survivors. */
  function Combined(v: Vector, d: seq<Byte>): (c: Vector)
    ensures |c| == |v|
  {
    CombinedUpTo(v, d, |v|)
  }

  /** The same with the first n rows of d only. */
  function CombinedUpTo(v: Vector, d: seq<Byte>, n: nat): (c: Vector)
    requires n <= |v|
    ensures |c| == |v|
  {
    seq(|v|, j requires 0 <= j < |v| => DotUpTo(v, Col(d, |v|, |v|, j), n))
  }

  /** (v * d) . y == v . (d * y) */
  lemma {:induction false} CombinedDotUpTo(v: Vector, d: seq<Byte>, y: Vector, n: nat)
    requires n <= |v| == |y|
    ensures Dot(CombinedUpTo(v, d, n), y) == DotUpTo(v, MulVec(d, |v|, y), n)
  {
    hide Add, GfMul, Row;
    var k := |v|;
    if n == 0 {
      DotUpToZero(CombinedUpTo(v, d, 0), y, k);
    } else {
      CombinedDotUpTo(v, d, y, n - 1);
      var c := CombinedUpTo(v, d, n - 1);
      var r := Row(d, k, n - 1);
      assert CombinedUpTo(v, d, n) == AddVec(c, Scale(v[n - 1], r));
      DotUpToAdd(c, Scale(v[n - 1], r), y, k);
      DotUpToScale(v[n - 1], r, y, k);
    }
  }

  lemma CombinedDot(v: Vector, d: seq<Byte>, y: Vector)
    requires |v| == |y|
    ensures Dot(Combined(v, d), y) == Dot(v, MulVec(d, |v|, y))
  {
    CombinedDotUpTo(v, d, y, |v|);
  }

  // ----- codewords

  /** Every buffer is its row of the generator applied to the k sources. */
  ghost predicate IsCodeword(a: seq<Byte>, m: nat, k: nat, whole: seq<seq<Byte>>, len: nat) {
    && |whole| == m && k <= m
    && (forall r :: 0 <= r < m ==> len <= |whole[r]|)
    && forall r, t :: 0 <= r < m && 0 <= t < len ==> whole[r][t] == Dot(Row(a, k, r), Column(whole[..k], t))
  }

  /** Encoding with the tables of the parity rows completes the sources to a codeword. */
  lemma EncodedIsCodeword(a: seq<Byte>, m: nat, k: nat, g: seq<Byte>, data: seq<seq<Byte>>, out: seq<seq<Byte>>,
                          len: nat)
    requires k <= m && m * k <= |a| && |data| == k && |out| == m - k
    requires forall r :: 0 <= r < k ==> Row(a, k, r) == Unit(k, r) && len <= |data[r]|
    requires 0 <= k * k <= m * k && HoldsTables(g, 0, a[k * k..m * k]) && Encoded(g, 0, data, out, len)
    ensures IsCodeword(a, m, k, data + out, len)
  {
    hide Row, Dot, Coefs, Column, HoldsTables;
    var whole := data + out;
    assert whole[..k] == data;
    forall r | 0 <= r < m ensures len <= |whole[r]| {
      if r >= k { assert IsDotProduct(Coefs(g, 0, k, r - k), data, out[r - k], len); }
    }
    forall r, t | 0 <= r < m && 0 <= t < len ensures whole[r][t] == Dot(Row(a, k, r), Column(whole[..k], t)) {
      if r < k {
        DotUnit(Column(data, t), r);
      } else {
        assert IsDotProduct(Coefs(g, 0, k, r - k), data, out[r - k], len);
        ParityCoefs(a, m, k, g, r - k);
      }
    }
  }

  /** The tables give output l the coefficients of row l of the matrix they were made from. */
  lemma TableCoefs(g: seq<Byte>, coefs: seq<Byte>, k: nat, l: nat)
    requires HoldsTables(g, 0, coefs) && l * k + k <= |coefs|
    ensures Coefs(g, 0, k, l) == Row(coefs, k, l)
  {
    hide *;
    forall j | 0 <= j < k ensures Coefs(g, 0, k, l)[j] == Row(coefs, k, l)[j] {
      RowElement(coefs, k, l, j);
      TableCoefficient(g, 0, coefs, l * k + j);
      TableAddress(k, l, j);
    }
  }

  lemma RowElement(coefs: seq<Byte>, k: nat, l: nat, j: nat)
    requires l * k + k <= |coefs| && j < k
    ensures 0 <= l * k + j < |coefs| && Row(coefs, k, l)[j] == coefs[l * k + j]
  {
  }

  lemma TableAddress(k: nat, l: nat, j: nat)
    ensures 0 + 32 * (l * k + j) + 1 == 0 + j * 32 + l * k * 32 + 1
  {
  }

  lemma ParityCoefs(a: seq<Byte>, m: nat, k: nat, g: seq<Byte>, l: nat)
    requires k + l < m && m * k <= |a| && 0 <= k * k <= m * k && HoldsTables(g, 0, a[k * k..m * k])
    ensures Coefs(g, 0, k, l) == Row(a, k, k + l)
  {
    hide *;
    RowFits(m, k, k + l);
    Distribute(k, l, k);
    TableCoefs(g, a[k * k..m * k], k, l);
    RowOfPart(a, k * k, m * k, k, l, k + l);
  }

  /** A row of a part of a matrix is a row of the whole. */
  lemma RowOfPart(a: seq<Byte>, lo: nat, hi: nat, k: nat, l: nat, r: nat)
    requires lo <= hi <= |a| && lo + l * k == r * k && r * k + k <= hi
    ensures Row(a[lo..hi], k, l) == Row(a, k, r)
  {
    assert a[lo..hi][l * k..l * k + k] == a[lo + l * k..lo + l * k + k];
  }

  // ----- the decoder

  /** Copies the rows of the first k unmarked buffers into b; rows lists them. */
  method ChooseSurvivors(m: nat, k: nat, a: array<Byte>, srcInErr: array<Byte>, buffs: seq<array<Byte>>, b: array<Byte>)
    returns (recov: seq<array<Byte>>, ghost rows: seq<nat>)
    requires m * k <= a.Length && m <= srcInErr.Length && |buffs| == m && k * k <= b.Length
    requires a != b && srcInErr != b
    requires k <= |Survivors(srcInErr[..], m)|
    modifies b
    ensures rows == Survivors(srcInErr[..], m)[..k]
    ensures ConsistsOf(b[..], a[..], k, rows)
    ensures |recov| == k && forall i :: 0 <= i < k ==> rows[i] < m && recov[i] == buffs[rows[i]]
  {
    hide Row, SameFrom, Survivors;
    ghost var err, base := srcInErr[..], b[..];
    recov, rows := [], [];
    var r := 0;
    SurvivorsFrom(err, 0);
    SameFromSelf(base, k * k);
    for i := 0 to k
      invariant srcInErr[..] == err && a[..] == old(a[..]) && SameFrom(base, b[..], k * k)
      invariant 0 <= r <= m && |recov| == |rows| == i
      invariant rows == Survivors(err, r)
      invariant forall l :: 0 <= l < i ==> rows[l] < m && recov[l] == buffs[rows[l]]
      invariant forall l :: 0 <= l < i ==> Row(b[..], k, l) == Row(a[..], k, rows[l])
    {
      NotAllBelow(err, r, m, i);
      while srcInErr[r] != 0
        invariant srcInErr[..] == err && a[..] == old(a[..]) && SameFrom(base, b[..], k * k)
        invariant 0 <= r < m && rows == Survivors(err, r)
        invariant forall l :: 0 <= l < i ==> Row(b[..], k, l) == Row(a[..], k, rows[l])
        decreases m - r
      {
        SurvivorsFrom(err, r);
        r := r + 1;
        NotAllBelow(err, r, m, i);
      }
      SurvivorsFrom(err, r);
      recov := recov + [buffs[r]];
      rows := rows + [r];
      CopyRow(m, k, a, r, b, i, base);
      r := r + 1;
    }
    SurvivorsPrefix(err, r, m);
  }

  lemma SurvivorsFrom(err: seq<Byte>, r: nat)
    ensures Survivors(err, 0) == []
    ensures r < |err| ==> Survivors(err, r + 1) == Survivors(err, r) + if err[r] == 0 then [r] else []
  {
  }

  /** While fewer than k survivors have been found, there is another one ahead. */
  lemma NotAllBelow(err: seq<Byte>, r: nat, m: nat, i: nat)
    requires r <= m <= |err| && |Survivors(err, r)| == i < |Survivors(err, m)|
    ensures r < m
  {
  }

  /** Copies row r of a into row i of b. */
  method CopyRow(m: nat, k: nat, a: array<Byte>, r: nat, b: array<Byte>, i: nat, ghost base: seq<Byte>)
    requires a != b && m * k <= a.Length && k * k <= b.Length && r < m && i < k
    requires SameFrom(base, b[..], k * k)
    modifies b
    ensures SameFrom(base, b[..], k * k)
    ensures forall l :: 0 <= l < k ==> Row(b[..], k, l) == if l == i then Row(a[..], k, r) else Row(old(b[..]), k, l)
  {
    hide Row, SameFrom;
    for j := 0 to k
      invariant SameFrom(base, b[..], k * k)
      invariant forall l :: 0 <= l < k && l != i ==> Row(b[..], k, l) == Row(old(b[..]), k, l)
      invariant Row(b[..], k, i)[..j] == Row(a[..], k, r)[..j]
    {
      RowIndex(a[..], m, k, r, j);
      RowIndex(b[..], k, k, i, j);
      SetEntry(b, k, k, i, j, k * i + j, a[k * r + j], base);
    }
    assert Row(b[..], k, i) == Row(a[..], k, r);
  }

  lemma RowIndex(s: seq<Byte>, m: nat, k: nat, i: nat, j: nat)
    requires m * k <= |s| && i < m && j < k
    ensures 0 <= k * i + j < m * k && k * i + j == i * k + j && Row(s, k, i)[j] == s[k * i + j]
  {
    RowFits(m, k, i);
  }

  /** Accumulates entry (i, j) of c, which starts at 0. */
  method CombineEntry(m: nat, k: nat, a: array<Byte>, s: nat, d: array<Byte>, nerrs: nat, c: array<Byte>, i: nat,
                      j: nat, ghost base: seq<Byte>)
    requires c != a && c != d && m * k <= a.Length && k * k <= d.Length && nerrs * k <= c.Length && s < m && i < nerrs
    requires j < k
    requires SameFrom(base, c[..], nerrs * k)
    requires Row(c[..], k, i)[j] == 0
    modifies c
    ensures SameFrom(base, c[..], nerrs * k)
    ensures Row(c[..], k, i) == Row(old(c[..]), k, i)[j := Dot(Row(a[..], k, s), Col(d[..], k, k, j))]
    ensures forall l :: 0 <= l < nerrs && l != i ==> Row(c[..], k, l) == Row(old(c[..]), k, l)
  {
    hide Row, SameFrom, Add, GfMul;
    ghost var v, w := Row(a[..], k, s), Col(d[..], k, k, j);
    for r := 0 to k
      invariant a[..] == old(a[..]) && d[..] == old(d[..])
      invariant SameFrom(base, c[..], nerrs * k)
      invariant forall l :: 0 <= l < nerrs && l != i ==> Row(c[..], k, l) == Row(old(c[..]), k, l)
      invariant Row(c[..], k, i) == Row(old(c[..]), k, i)[j := DotUpTo(v, w, r)]
    {
      RowIndex(c[..], nerrs, k, i, j);
      RowIndex(d[..], k, k, r, j);
      RowIndex(a[..], m, k, s, r);
      MulCommutes(d[k * r + j], a[k * s + r]);
      SetEntry(c, nerrs, k, i, j, k * i + j, Add(c[k * i + j], GfMul(d[k * r + j], a[k * s + r])), base);
    }
  }

  /** Row i of c, which starts at zero, becomes row s of a times d. */
  method CombineRow(m: nat, k: nat, a: array<Byte>, s: nat, d: array<Byte>, nerrs: nat, c: array<Byte>, i: nat,
                    ghost base: seq<Byte>)
    requires c != a && c != d && m * k <= a.Length && k * k <= d.Length && nerrs * k <= c.Length && s < m && i < nerrs
    requires SameFrom(base, c[..], nerrs * k)
    requires Row(c[..], k, i) == Zero(k)
    modifies c
    ensures SameFrom(base, c[..], nerrs * k)
    ensures forall l :: 0 <= l < nerrs ==>
      Row(c[..], k, l) == if l == i then Combined(Row(a[..], k, s), d[..]) else Row(old(c[..]), k, l)
  {
    hide Row, SameFrom, Dot, Col;
    ghost var v := Row(a[..], k, s);
    for j := 0 to k
      invariant a[..] == old(a[..]) && d[..] == old(d[..])
      invariant SameFrom(base, c[..], nerrs * k)
      invariant forall l :: 0 <= l < nerrs && l != i ==> Row(c[..], k, l) == Row(old(c[..]), k, l)
      invariant forall t :: 0 <= t < j ==> Row(c[..], k, i)[t] == Dot(v, Col(d[..], k, k, t))
      invariant forall t :: j <= t < k ==> Row(c[..], k, i)[t] == 0
    {
      CombineEntry(m, k, a, s, d, nerrs, c, i, j, base);
    }
    CombinedEntries(v, d[..], Row(c[..], k, i));
  }

  lemma CombinedEntries(v: Vector, d: seq<Byte>, c: Vector)
    requires |c| == |v| && forall j :: 0 <= j < |v| ==> c[j] == Dot(v, Col(d, |v|, |v|, j))
    ensures c == Combined(v, d)
  {
  }

  // ----- what a recovered byte is

  /** Applying the combined coefficients to the survivors gives the lost buffer. */
  lemma RecoveredByte(a: seq<Byte>, k: nat, rows: seq<nat>, b: seq<Byte>, d: seq<Byte>, s: nat, x: Vector, y: Vector)
    requires |x| == |y| == k && ConsistsOf(b, a, k, rows) && Undoes(b, d, k)
    requires forall i :: 0 <= i < k ==> y[i] == Dot(Row(a, k, rows[i]), x)
    ensures Dot(Combined(Row(a, k, s), d), y) == Dot(Row(a, k, s), x)
  {
    hide Row, Dot, Combined;
    assert y == MulVec(b, k, x);
    CombinedDot(Row(a, k, s), d, y);
  }

  /** The first len bytes of s and t agree. */
  ghost predicate SameUpTo(s: seq<Byte>, t: seq<Byte>, len: nat) {
    len <= |s| && len <= |t| && forall i :: 0 <= i < len ==> s[i] == t[i]
  }

  /** part[i] agrees with whole[which[i]], for every i. */
  ghost predicate Holds(part: seq<seq<Byte>>, whole: seq<seq<Byte>>, which: seq<nat>, len: nat) {
    |part| == |which| && forall i :: 0 <= i < |which| ==> which[i] < |whole| && SameUpTo(part[i], whole[which[i]], len)
  }

  /** Row i of c is row lost[i] of a times d. */
  ghost predicate IsCombination(c: seq<Byte>, a: seq<Byte>, d: seq<Byte>, k: nat, lost: seq<nat>) {
    && |c| == |lost| * k
    && forall i :: 0 <= i < |lost| ==> Row(c, k, i) == Combined(Row(a, k, lost[i]), d)
  }

  /** Every byte of every rebuilt buffer is the lost one. */
  lemma RecoveredBuffers(a: seq<Byte>, m: nat, k: nat, rows: seq<nat>, b: seq<Byte>, d: seq<Byte>, c: seq<Byte>,
                         g: seq<Byte>,
                         lost: seq<nat>, whole: seq<seq<Byte>>, survivors: seq<seq<Byte>>, out: seq<seq<Byte>>,
                         len: nat)
    requires ConsistsOf(b, a, k, rows) && Undoes(b, d, k) && IsCodeword(a, m, k, whole, len)
    requires IsCombination(c, a, d, k, lost) && HoldsTables(g, 0, c)
    requires Holds(survivors, whole, rows, len) && |rows| == |survivors| == k
    requires |out| == |lost| && Encoded(g, 0, survivors, out, len)
    requires forall i :: 0 <= i < |lost| ==> lost[i] < m
    ensures Holds(out, whole, lost, len)
  {
    hide Row, Dot, Combined, Coefs, HoldsTables, Undoes, ConsistsOf, Holds;
    forall i | 0 <= i < |lost| ensures lost[i] < |whole| && SameUpTo(out[i], whole[lost[i]], len) {
      RowFits(|lost|, k, i);
      TableCoefs(g, c, k, i);
      assert IsDotProduct(Coefs(g, 0, k, i), survivors, out[i], len);
      forall t | 0 <= t < len ensures out[i][t] == whole[lost[i]][t] {
        SurvivorColumn(a, m, k, rows, whole, survivors, len, t);
        RecoveredByte(a, k, rows, b, d, lost[i], Column(whole[..k], t), Column(survivors, t));
      }
    }
    HoldsIf(out, whole, lost, len);
  }

  lemma HoldsIf(part: seq<seq<Byte>>, whole: seq<seq<Byte>>, which: seq<nat>, len: nat)
    requires |part| == |which|
    requires forall i :: 0 <= i < |which| ==> which[i] < |whole| && SameUpTo(part[i], whole[which[i]], len)
    ensures Holds(part, whole, which, len)
  {
  }

  lemma SurvivorColumn(a: seq<Byte>, m: nat, k: nat, rows: seq<nat>, whole: seq<seq<Byte>>, survivors: seq<seq<Byte>>,
                       len: nat, t: nat)
    requires IsCodeword(a, m, k, whole, len) && |rows| == k && t < len && Holds(survivors, whole, rows, len)
    ensures forall i :: 0 <= i < k ==> Column(survivors, t)[i] == Dot(Row(a, k, rows[i]), Column(whole[..k], t))
  {
    hide Row, Dot;
  }

  /** The chosen buffers still hold their part of the codeword. */
  lemma SurvivorsKept(whole: seq<seq<Byte>>, rows: seq<nat>, buffs: seq<array<Byte>>, recov: seq<array<Byte>>, len: nat,
                      err: seq<Byte>, m: nat)
    requires |recov| == |rows| && |buffs| == |whole| == m <= |err| && |rows| <= |Survivors(err, m)|
    requires rows == Survivors(err, m)[..|rows|]
    requires forall i :: 0 <= i < |rows| ==> rows[i] < m && recov[i] == buffs[rows[i]]
    requires Undamaged(buffs, whole, err, len)
    ensures Buffers(recov, len) && Holds(Contents(recov), whole, rows, len)
  {
    SurvivorsIncrease(err, m);
    hide Survivors;
    forall i | 0 <= i < |rows| ensures len <= recov[i].Length && SameUpTo(Contents(recov)[i], whole[rows[i]], len) {
      assert SameUpTo(buffs[rows[i]][..], whole[rows[i]], len);
    }
  }

  /** Every buffer that is not marked in err holds its part of the codeword. */
  ghost predicate Undamaged(buffs: seq<array<Byte>>, whole: seq<seq<Byte>>, err: seq<Byte>, len: nat)
    requires |buffs| == |whole| <= |err|
    reads buffs
  {
    forall r :: 0 <= r < |buffs| && err[r] == 0 ==> SameUpTo(buffs[r][..], whole[r], len)
  }

  /** All rows of c, which starts at zero. */
  method CombineAll(m: nat, k: nat, a: array<Byte>, srcErrList: seq<nat>, d: array<Byte>, c: array<Byte>)
    requires c != a && c != d && m * k <= a.Length && k * k <= d.Length && c.Length == |srcErrList| * k
    requires forall i :: 0 <= i < |srcErrList| ==> srcErrList[i] < m
    requires forall p :: 0 <= p < c.Length ==> c[p] == 0
    modifies c
    ensures IsCombination(c[..], a[..], d[..], k, srcErrList)
  {
    hide Row, Combined, SameFrom;
    var nerrs := |srcErrList|;
    ghost var base := c[..];
    SameFromSelf(base, nerrs * k);
    forall l | 0 <= l < nerrs ensures Row(c[..], k, l) == Zero(k) { ZeroRow(c[..], nerrs, k, l); }
    for i := 0 to nerrs
      invariant a[..] == old(a[..]) && d[..] == old(d[..])
      invariant SameFrom(base, c[..], nerrs * k)
      invariant forall l :: 0 <= l < i ==> Row(c[..], k, l) == Combined(Row(a[..], k, srcErrList[l]), d[..])
      invariant forall l :: i <= l < nerrs ==> Row(c[..], k, l) == Zero(k)
    {
      CombineRow(m, k, a, srcErrList[i], d, nerrs, c, i, base);
    }
  }

  /** Encoding the survivors with the tables in g rebuilds the lost buffers. */
  ghost predicate Rebuilds(g: seq<Byte>, survivors: seq<seq<Byte>>, whole: seq<seq<Byte>>, lost: seq<nat>, len: nat) {
    forall out: seq<seq<Byte>> :: |out| == |lost| && Encoded(g, 0, survivors, out, len) ==> Holds(out, whole, lost, len)
  }

  /** The buffers a decoder may use, and what it may write. */
  ghost predicate CanDecode(m: nat, k: nat, a: array<Byte>, gTbls: array<Byte>, buffs: seq<array<Byte>>,
                            srcInErr: array<Byte>,
                            lost: seq<nat>, len: nat, whole: seq<seq<Byte>>)
    reads a, srcInErr, buffs
  {
    && m * k <= a.Length && m <= srcInErr.Length && gTbls != a && gTbls !in buffs
    && k <= |Survivors(srcInErr[..], m)|
    && (forall i :: 0 <= i < |lost| ==> lost[i] < m)
    && 32 * (|lost| * k) <= gTbls.Length
    && IsCodeword(a[..], m, k, whole, len)
    && |buffs| == m && Undamaged(buffs, whole, srcInErr[..], len)
  }

  ghost predicate IsOutput(bufs: seq<array<Byte>>, gTbls: array<Byte>, buffs: seq<array<Byte>>, n: nat, len: nat) {
    && |bufs| == n && Buffers(bufs, len) && Distinct(bufs)
    && gTbls !in bufs && forall i :: 0 <= i < |bufs| ==> bufs[i] !in buffs
  }

  /** The common part of the decoders: everything up to the tables.  Returns 0 exactly when the rows
      of the first k surviving buffers are nonsingular. */
  method PrepareDecode(m: nat, k: nat, a: array<Byte>, gTbls: array<Byte>, buffs: seq<array<Byte>>,
                       srcInErr: array<Byte>,
                       srcErrList: seq<nat>, len: nat, ghost whole: seq<seq<Byte>>)
    returns (ret: int, recov: seq<array<Byte>>)
    requires CanDecode(m, k, a, gTbls, buffs, srcInErr, srcErrList, len, whole)
    modifies gTbls
    ensures ret == 0 || ret == -1
    ensures ret == 0 <==> RowsNonsingular(old(a[..]), k, Elements(Survivors(old(srcInErr[..]), m)[..k]))
    ensures |recov| == k && Buffers(recov, len) && forall i :: 0 <= i < k ==> recov[i] in buffs
    ensures ret == 0 ==> Rebuilds(gTbls[..], Contents(recov), whole, srcErrList, len)
  {
    hide *;
    MayDecode(m, k, a, gTbls, buffs, srcInErr, srcErrList, len, whole);
    ghost var matrix, err := a[..], srcInErr[..];
    var b, c, d := new Byte[k * k], new Byte[|srcErrList| * k](_ => 0), new Byte[k * k];
    ghost var rows;
    recov, rows := ChooseSurvivors(m, k, a, srcInErr, buffs, b);
    SurvivorsKept(whole, rows, buffs, recov, len, err, m);
    ghost var chosen, survivors := b[..], Contents(recov);
    ChosenNonsingular(chosen, matrix, k, rows);
    ret := GfInvertMatrix(b, d, k);
    if ret < 0 {
      return -1, recov;
    }
    CombineAll(m, k, a, srcErrList, d, c);
    EcInitTablesBase(k, |srcErrList|, c, 0, gTbls);
    assert c[0..|srcErrList| * k] == c[..];
    assert Contents(recov) == survivors;
    forall out: seq<seq<Byte>> | |out| == |srcErrList| && Encoded(gTbls[..], 0, survivors, out, len)
      ensures Holds(out, whole, srcErrList, len)
    {
      RecoveredBuffers(matrix, m, k, rows, chosen, d[..], c[..], gTbls[..], srcErrList, whole, survivors, out, len);
    }
    RebuildsIf(gTbls[..], survivors, whole, srcErrList, len);
  }

  lemma MayDecode(m: nat, k: nat, a: array<Byte>, gTbls: array<Byte>, buffs: seq<array<Byte>>, srcInErr: array<Byte>,
                  lost: seq<nat>, len: nat, whole: seq<seq<Byte>>)
    requires CanDecode(m, k, a, gTbls, buffs, srcInErr, lost, len, whole)
    ensures m * k <= a.Length && m <= srcInErr.Length && gTbls != a && gTbls !in buffs
    ensures k <= |Survivors(srcInErr[..], m)| && k <= m
    ensures forall i :: 0 <= i < |lost| ==> lost[i] < m
    ensures 32 * (|lost| * k) <= gTbls.Length
    ensures IsCodeword(a[..], m, k, whole, len)
    ensures |buffs| == |whole| == m && Undamaged(buffs, whole, srcInErr[..], len)
  {
  }

  lemma RebuildsIf(g: seq<Byte>, survivors: seq<seq<Byte>>, whole: seq<seq<Byte>>, lost: seq<nat>, len: nat)
    requires forall out: seq<seq<Byte>> :: |out| == |lost| && Encoded(g, 0, survivors, out, len) ==>
      Holds(out, whole, lost, len)
    ensures Rebuilds(g, survivors, whole, lost, len)
  {
  }

  /** ec_decode_perf: rebuilds the buffers listed in srcErrList from the first k buffers not marked
      in srcInErr.  When it returns 0, every rebuilt buffer equals the lost one. */
  method EcDecode(m: nat, k: nat, a: array<Byte>, gTbls: array<Byte>, buffs: seq<array<Byte>>, srcInErr: array<Byte>,
                  srcErrList: seq<nat>, tempBuffs: seq<array<Byte>>, len: nat, ghost whole: seq<seq<Byte>>)
    returns (ret: int)
    requires CanDecode(m, k, a, gTbls, buffs, srcInErr, srcErrList, len, whole)
    requires IsOutput(tempBuffs, gTbls, buffs, |srcErrList|, len)
    modifies gTbls, tempBuffs
    ensures ret == 0 || ret == -1
    ensures ret == 0 <==> RowsNonsingular(old(a[..]), k, Elements(Survivors(old(srcInErr[..]), m)[..k]))
    ensures ret == 0 ==> Holds(Contents(tempBuffs), whole, srcErrList, len)
    ensures ret == -1 ==> Contents(tempBuffs) == old(Contents(tempBuffs))
  {
    hide CanDecode, RowsNonsingular, Rebuilds, Encoded, Holds, Elements, Survivors;
    MayDecode(m, k, a, gTbls, buffs, srcInErr, srcErrList, len, whole);
    var recov;
    ret, recov := PrepareDecode(m, k, a, gTbls, buffs, srcInErr, srcErrList, len, whole);
    if ret < 0 {
      return;
    }
    ghost var survivors := Contents(recov);
    EcEncodeDataBase(len, k, |srcErrList|, gTbls, 0, recov, tempBuffs);
    Rebuilt(gTbls[..], survivors, whole, srcErrList, len, Contents(tempBuffs));
  }

  lemma Rebuilt(g: seq<Byte>, survivors: seq<seq<Byte>>, whole: seq<seq<Byte>>, lost: seq<nat>, len: nat,
                out: seq<seq<Byte>>)
    requires Rebuilds(g, survivors, whole, lost, len) && |out| == |lost| && Encoded(g, 0, survivors, out, len)
    ensures Holds(out, whole, lost, len)
  {
  }

  /** decode_test: the same, one survivor at a time into cleared buffers. */
  method DecodeTest(m: nat, k: nat, a: array<Byte>, gTbls: array<Byte>, buffs: seq<array<Byte>>, srcInErr: array<Byte>,
                    srcErrList: seq<nat>, tempBuffs: seq<array<Byte>>, len: nat, ghost whole: seq<seq<Byte>>)
    returns (ret: int)
    requires CanDecode(m, k, a, gTbls, buffs, srcInErr, srcErrList, len, whole)
    requires IsOutput(tempBuffs, gTbls, buffs, |srcErrList|, len)
    requires forall l, i :: 0 <= l < |tempBuffs| && 0 <= i < len ==> tempBuffs[l][i] == 0
    modifies gTbls, tempBuffs
    ensures ret == 0 || ret == -1
    ensures ret == 0 <==> RowsNonsingular(old(a[..]), k, Elements(Survivors(old(srcInErr[..]), m)[..k]))
    ensures ret == 0 ==> Holds(Contents(tempBuffs), whole, srcErrList, len)
    ensures ret == -1 ==> Contents(tempBuffs) == old(Contents(tempBuffs))
  {
    hide CanDecode, RowsNonsingular, Rebuilds, Encoded, Holds, Elements, Survivors;
    MayDecode(m, k, a, gTbls, buffs, srcInErr, srcErrList, len, whole);
    var recov;
    ret, recov := PrepareDecode(m, k, a, gTbls, buffs, srcInErr, srcErrList, len, whole);
    if ret < 0 {
      return;
    }
    ghost var survivors := Contents(recov);
    var order := seq(k, i requires 0 <= i < k => i as nat);
    forall j | 0 <= j < k ensures j in order { assert order[j] == j; }
    EncodeByUpdates(len, k, |srcErrList|, order, gTbls, 0, recov, tempBuffs);
    Rebuilt(gTbls[..], survivors, whole, srcErrList, len, Contents(tempBuffs));
  }

  // ----- encoding, losing and recovering

  /** The sizes for which every loss of at most m - k buffers can be undone. */
  predicate Recoverable(cauchy: bool, m: nat, k: nat) {
    0 < k <= m && if cauchy then m <= 256 || m == k else VandermondeCode.RsSafe(k, m - k)
  }

  /** The matrix that was generated, whichever it was. */
  ghost predicate IsGenerator(cauchy: bool, a: seq<Byte>, m: nat, k: nat) {
    if cauchy then IsCauchyMatrix(a, m, k) else IsRsMatrix(a, m, k)
  }

  lemma GeneratorRecovers(cauchy: bool, a: seq<Byte>, m: nat, k: nat)
    requires 0 < k <= m && IsGenerator(cauchy, a, m, k)
    ensures Recoverable(cauchy, m, k) <==> AnyRowsNonsingular(a, m, k)
  {
    hide AnyRowsNonsingular;
    if cauchy {
      CauchyCode.CauchyRecoversAnyLoss(a, m, k);
    } else {
      VandermondeCode.RsRecoversExactly(a, m, k);
    }
  }

  lemma GeneratorIdentity(cauchy: bool, a: seq<Byte>, m: nat, k: nat)
    requires k <= m && IsGenerator(cauchy, a, m, k)
    ensures forall i :: 0 <= i < k ==> Row(a, k, i) == Unit(k, i)
  {
    if cauchy {
      CauchyCode.IdentityRows(a, m, k);
    } else {
      VandermondeCode.RsIdentityRows(a, m, k);
    }
  }

  lemma AnyChoice(a: seq<Byte>, m: nat, k: nat, err: seq<Byte>)
    requires AnyRowsNonsingular(a, m, k) && m <= |err| && k <= |Survivors(err, m)|
    ensures RowsNonsingular(a, k, Elements(Survivors(err, m)[..k]))
  {
    hide RowsNonsingular;
    SurvivorsIncrease(err, m);
    var rows := Survivors(err, m)[..k];
    ElementsSize(rows);
  }

  /** Generate, encode, decode: as the performance programs do.  If at least k buffers survive, decoding
      succeeds exactly if the rows of the first k of them are nonsingular, and then returns exactly what
      was lost; for recoverable sizes it always succeeds. */
  method EncodeAndRecover(cauchy: bool, m: nat, k: nat, len: nat, buffs: seq<array<Byte>>, srcInErr: array<Byte>,
                          srcErrList: seq<nat>, tempBuffs: seq<array<Byte>>)
    returns (ret: int, ghost matrix: seq<Byte>)
    requires 0 < k <= m
    requires |buffs| == m && Buffers(buffs, len) && Distinct(buffs)
    requires m <= srcInErr.Length && k <= |Survivors(srcInErr[..], m)| && srcInErr !in buffs
    requires forall i :: 0 <= i < |srcErrList| ==> srcErrList[i] < m
    requires |tempBuffs| == |srcErrList| && Buffers(tempBuffs, len) && Distinct(tempBuffs)
    requires forall i :: 0 <= i < |tempBuffs| ==> tempBuffs[i] !in buffs
    modifies buffs, tempBuffs
    ensures Contents(buffs)[..k] == old(Contents(buffs))[..k]
    ensures IsGenerator(cauchy, matrix, m, k)
    ensures ret == 0 <==> RowsNonsingular(matrix, k, Elements(Survivors(old(srcInErr[..]), m)[..k]))
    ensures Recoverable(cauchy, m, k) ==> ret == 0
    ensures ret == 0 ==>
      forall i :: 0 <= i < |srcErrList| ==> SameUpTo(tempBuffs[i][..], buffs[srcErrList[i]][..], len)
    ensures ret != 0 ==> ret == -1 && Contents(tempBuffs) == old(Contents(tempBuffs))
  {
    hide *;
    SizesOf(m, k);
    var a := new Byte[m * k];
    var gTbls := new Byte[32 * (m * k) + 32 * (|srcErrList| * k)];
    if cauchy {
      GfGenCauchy1Matrix(a, m, k);
    } else {
      GfGenRsMatrix(a, m, k);
    }
    matrix := a[..];
    ghost var err := srcInErr[..];
    GeneratorIs(cauchy, matrix, m, k);
    GeneratorIdentity(cauchy, matrix, m, k);
    GeneratorRecovers(cauchy, matrix, m, k);
    if AnyRowsNonsingular(matrix, m, k) { AnyChoice(matrix, m, k, err); }

    EncodeParity(m, k, len, a, gTbls, buffs);
    ghost var whole := Contents(buffs);
    ContentsAgree(buffs, whole, err, len);
    assert a[..] == matrix && srcInErr[..] == err;
    DecodeAllowed(m, k, a, gTbls, buffs, srcInErr, srcErrList, len, whole);
    OutputAllowed(tempBuffs, gTbls, buffs, |srcErrList|, len);
    ret := EcDecode(m, k, a, gTbls, buffs, srcInErr, srcErrList, tempBuffs, len, whole);
    assert Contents(buffs) == whole;
    if ret == 0 { RecoveredAgree(tempBuffs, buffs, whole, srcErrList, len); }
  }

  lemma SizesOf(m: nat, k: nat)
    requires k <= m
    ensures 0 <= k * k <= m * k
  {
    ProductMonotone(k, m, k);
    ProductMonotone(0, k, k);
  }

  lemma GeneratorIs(cauchy: bool, a: seq<Byte>, m: nat, k: nat)
    requires if cauchy then IsCauchyMatrix(a, m, k) else IsRsMatrix(a, m, k)
    ensures IsGenerator(cauchy, a, m, k)
  {
  }

  /** ec_encode_perf: the parity buffers behind the k sources complete a codeword. */
  method EncodeParity(m: nat, k: nat, len: nat, a: array<Byte>, gTbls: array<Byte>, buffs: seq<array<Byte>>)
    requires k <= m && m * k <= a.Length && a != gTbls && 32 * (m * k) <= gTbls.Length
    requires forall r :: 0 <= r < k ==> Row(a[..], k, r) == Unit(k, r)
    requires |buffs| == m && Buffers(buffs, len) && Distinct(buffs) && gTbls !in buffs && a !in buffs
    modifies gTbls, buffs
    ensures a[..] == old(a[..])
    ensures Contents(buffs)[..k] == old(Contents(buffs))[..k]
    ensures IsCodeword(a[..], m, k, Contents(buffs), len)
  {
    hide HoldsTables, Encoded, IsCodeword, Row, TailsKept, Contents;
    ParitySizes(m, k);
    var data, parity := buffs[..k], buffs[k..];
    ghost var sources := Contents(data);
    BuffersSplit(buffs, k, len);
    ContentsSplit(buffs, k);
    EcInitTablesBase(k, m - k, a, k * k, gTbls);
    assert a[k * k..k * k + (m - k) * k] == a[..][k * k..m * k];
    assert Contents(data) == sources;
    EcEncodeDataBase(len, k, m - k, gTbls, 0, data, parity);
    assert Contents(data) == sources;
    EncodedIsCodeword(a[..], m, k, gTbls[..], sources, Contents(parity), len);
    ContentsSplit(buffs, k);
  }

  lemma ContentsSplit(buffs: seq<array<Byte>>, k: nat)
    requires k <= |buffs|
    ensures Contents(buffs) == Contents(buffs[..k]) + Contents(buffs[k..])
    ensures Contents(buffs)[..k] == Contents(buffs[..k])
  {
  }

  lemma ParitySizes(m: nat, k: nat)
    requires k <= m
    ensures 0 <= k * k <= m * k && k * k + (m - k) * k == m * k
    ensures 32 * ((m - k) * k) <= 32 * (m * k) && 32 * k * (m - k) == 32 * ((m - k) * k)
  {
    assert k * k + (m - k) * k == m * k;
  }

  lemma BuffersSplit(buffs: seq<array<Byte>>, k: nat, len: nat)
    requires k <= |buffs| && Buffers(buffs, len) && Distinct(buffs)
    ensures Buffers(buffs[..k], len) && Buffers(buffs[k..], len) && Distinct(buffs[k..])
    ensures forall l :: 0 <= l < |buffs| - k ==> buffs[k..][l] !in buffs[..k]
  {
  }

  lemma ContentsAgree(buffs: seq<array<Byte>>, whole: seq<seq<Byte>>, err: seq<Byte>, len: nat)
    requires whole == Contents(buffs) && Buffers(buffs, len) && |buffs| <= |err|
    ensures Undamaged(buffs, whole, err, len)
  {
  }

  lemma DecodeAllowed(m: nat, k: nat, a: array<Byte>, gTbls: array<Byte>, buffs: seq<array<Byte>>,
                      srcInErr: array<Byte>,
                      lost: seq<nat>, len: nat, whole: seq<seq<Byte>>)
    requires m * k <= a.Length && m <= srcInErr.Length && gTbls != a && gTbls !in buffs
    requires k <= |Survivors(srcInErr[..], m)|
    requires forall i :: 0 <= i < |lost| ==> lost[i] < m
    requires 32 * (|lost| * k) <= gTbls.Length
    requires IsCodeword(a[..], m, k, whole, len)
    requires |buffs| == |whole| == m && Undamaged(buffs, whole, srcInErr[..], len)
    ensures CanDecode(m, k, a, gTbls, buffs, srcInErr, lost, len, whole)
  {
  }

  lemma OutputAllowed(bufs: seq<array<Byte>>, gTbls: array<Byte>, buffs: seq<array<Byte>>, n: nat, len: nat)
    requires |bufs| == n && Buffers(bufs, len) && Distinct(bufs)
    requires gTbls !in bufs && forall i :: 0 <= i < |bufs| ==> bufs[i] !in buffs
    ensures IsOutput(bufs, gTbls, buffs, n, len)
  {
  }

  lemma RecoveredAgree(tempBuffs: seq<array<Byte>>, buffs: seq<array<Byte>>, whole: seq<seq<Byte>>, lost: seq<nat>,
                       len: nat)
    requires Holds(Contents(tempBuffs), whole, lost, len) && whole == Contents(buffs)
    ensures |lost| == |tempBuffs| && forall i :: 0 <= i < |lost| ==>
      lost[i] < |buffs| && SameUpTo(tempBuffs[i][..], buffs[lost[i]][..], len)
  {
  }
}
