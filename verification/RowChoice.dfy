/** Which choices of k rows of a generator matrix are nonsingular: the erasures that can be undone. */
module RowChoice {
  import opened GaloisField
  import opened LinearAlgebra

  /** Only the zero vector is sent to zero by all the chosen rows. */
  ghost predicate RowsNonsingular(a: seq<Byte>, k: nat, rows: set<nat>) {
    forall x: Vector :: |x| == k && Kills(a, k, rows, x) ==> x == Zero(k)
  }

  ghost predicate Kills(a: seq<Byte>, k: nat, rows: set<nat>, x: Vector)
    requires |x| == k
  {
    forall r :: r in rows ==> Dot(Row(a, k, r), x) == 0
  }

  /** Every k of the m rows are nonsingular: any m - k losses can be undone. */
  ghost predicate AnyRowsNonsingular(a: seq<Byte>, m: nat, k: nat) {
    forall rows: set<nat> :: |rows| == k && (forall r :: r in rows ==> r < m) ==> RowsNonsingular(a, k, rows)
  }

  // ----- sets of rows and columns

  function Elements(s: seq<nat>): (r: set<nat>)
    ensures forall i :: i in r <==> i in s
  {
    if s == [] then {} else Elements(s[..|s| - 1]) + {s[|s| - 1]}
  }

  lemma {:induction false} ElementsSize(s: seq<nat>)
    requires forall i, j :: 0 <= i < j < |s| ==> s[i] < s[j]
    ensures |Elements(s)| == |s|
  {
    if s != [] {
      ElementsSize(s[..|s| - 1]);
      assert s[|s| - 1] !in Elements(s[..|s| - 1]);
    }
  }

  lemma {:induction false} SubsetSize<T>(s: set<T>, t: set<T>)
    requires s <= t
    ensures |s| <= |t|
  {
    if v :| v in s { SubsetSize(s - {v}, t - {v}); }
  }

  function Below(n: nat): (s: set<nat>)
    ensures forall j: nat :: j in s <==> j < n
    ensures |s| == n
  {
    if n == 0 then {} else Below(n - 1) + {n - 1}
  }

  /** The columns that no chosen identity row fixes. */
  function FreeColumns(k: nat, rows: set<nat>): set<nat> {
    Below(k) - rows
  }

  function ParityRows(k: nat, rows: set<nat>): set<nat> {
    rows - Below(k)
  }

  /** k rows leave as many columns free as they include parity rows. */
  lemma AsManyFreeAsParity(k: nat, rows: set<nat>)
    requires |rows| == k
    ensures |FreeColumns(k, rows)| == |ParityRows(k, rows)|
  {
    var both := rows * Below(k);
    assert rows == both + ParityRows(k, rows) && both !! ParityRows(k, rows);
    assert Below(k) == both + FreeColumns(k, rows) && both !! FreeColumns(k, rows);
  }

  /** The numbers of the parity rows among rows. */
  function ParityNumbers(k: nat, rows: set<nat>): (s: set<nat>)
    ensures forall e: nat :: e in s <==> k + e in rows
  {
    var s := set r | r in rows && r >= k :: (r - k) as nat;
    assert forall e: nat :: k + e in rows ==> e in s by {
      forall e: nat | k + e in rows ensures e in s { assert e == k + e - k; }
    }
    s
  }

  function Raised(k: nat, s: set<nat>): (rows: set<nat>)
    ensures forall r :: r in rows <==> r >= k && r - k in s
  {
    var rows := set e | e in s :: k + e;
    assert forall r: nat :: r >= k && r - k in s ==> r in rows by {
      forall r: nat | r >= k && r - k in s ensures r in rows { assert r == k + (r - k); }
    }
    rows
  }

  lemma {:induction false} RaisedSize(k: nat, s: set<nat>)
    ensures |Raised(k, s)| == |s|
  {
    hide Raised;
    if e :| e in s {
      RaisedSize(k, s - {e});
      assert Raised(k, s) == Raised(k, s - {e}) + {k + e};
    } else {
      assert s == {};
      assert Raised(k, s) == {};
    }
  }

  lemma ParityCount(k: nat, rows: set<nat>)
    requires |rows| == k
    ensures |ParityNumbers(k, rows)| == |FreeColumns(k, rows)|
    ensures forall c :: c in FreeColumns(k, rows) ==> c < k
  {
    hide ParityNumbers, Raised;
    AsManyFreeAsParity(k, rows);
    RaisedSize(k, ParityNumbers(k, rows));
    assert Raised(k, ParityNumbers(k, rows)) == ParityRows(k, rows);
  }

  /** The identity rows off the columns, and the given parity rows. */
  function RowsOf(k: nat, rows: set<nat>, columns: set<nat>): (all: set<nat>)
    ensures forall r: nat :: r in all <==> if r < k then r !in columns else r - k in rows
  {
    (Below(k) - columns) + Raised(k, rows)
  }

  lemma RowsOfSize(k: nat, rows: set<nat>, columns: set<nat>)
    requires |Raised(k, rows)| == |columns| && forall c :: c in columns ==> c < k
    ensures |RowsOf(k, rows, columns)| == k
  {
    hide Raised;
    assert columns <= Below(k);
    assert |Below(k) - columns| == k - |columns|;
    assert (Below(k) - columns) !! Raised(k, rows);
  }

  /** x is zero outside columns. */
  ghost predicate SupportedBy(x: Vector, columns: set<nat>) {
    forall c: nat :: c < |x| && c !in columns ==> x[c] == 0
  }

  /** A vector killed by the chosen rows vanishes outside the free columns. */
  lemma SupportIsFree(a: seq<Byte>, k: nat, rows: set<nat>, x: Vector)
    requires |x| == k && Kills(a, k, rows, x)
    requires forall i :: 0 <= i < k ==> Row(a, k, i) == Unit(k, i)
    ensures SupportedBy(x, FreeColumns(k, rows))
  {
    hide Row, Dot;
    forall c: nat | c < k && c !in FreeColumns(k, rows) ensures x[c] == 0 {
      assert c in rows;
      DotUnit(x, c);
    }
  }
}
