/** Table-driven arithmetic in GF(2^8): the exponent and logarithm tables, gf_mul and gf_inv, and
    the proof that they compute in the field defined by PolyMul. */
module GaloisTables {
  import opened Arithmetic
  import opened GaloisField

  // ----- the tables

  /** The last exponent below n whose power of {2} is a, or 0. */
  function LastLog(a: Byte, n: nat): (i: nat)
    ensures n > 0 ==> i < n
  {
    if n == 0 then 0 else if Power(n - 1) == a then n - 1 else LastLog(a, n - 1)
  }

  /** Entry n of the exponent table. */
  function Gff(n: nat): Byte
    requires n < 256
  {
    Power(n)
  }

  /** Entry a of the logarithm table. */
  function Gflog(a: Byte): (i: nat)
    ensures i < 256
  {
    LastLog(a, 256)
  }

  lemma {:induction false} LastLogFound(a: Byte, n: nat, i: nat)
    requires i < n && Power(i) == a
    ensures Power(LastLog(a, n)) == a && LastLog(a, n) >= i
  {
    hide Power;
    if Power(n - 1) != a { LastLogFound(a, n - 1, i); }
  }

  /** The logarithm table inverts the exponent table on nonzero bytes. */
  lemma LogInvertsPower(a: Byte)
    requires a != 0
    ensures Gff(Gflog(a)) == a && 1 <= Gflog(a) <= 255
  {
    hide Power, LastLog;
    var i := EveryByteIsPower(a);
    LastLogFound(a, 256, i);
    if Gflog(a) == 0 {
      assert a == Power(0);
      Power255();
      PowerIsOne(0);
      LastLogFound(a, 256, 255);
    }
  }

  /** The logarithm table after the first n powers have been entered. */
  ghost predicate LogsUpTo(logs: seq<Byte>, n: nat) {
    && |logs| == 256
    && logs[0] == 0
    && forall j: nat :: j < n ==> logs[Power(j) as int] as int == LastLog(Power(j), n)
  }

  lemma LastLogAt(a: Byte, n: nat)
    ensures LastLog(a, n + 1) == if Power(n) == a then n else LastLog(a, n)
  {
    hide Power;
  }

  lemma LogsStep(logs: seq<Byte>, n: nat)
    requires n < 256 && LogsUpTo(logs, n)
    ensures LogsUpTo(logs[Power(n) as int := ByteOf(n)], n + 1)
  {
    hide Power, ByteOf, LastLog;
    if Power(n) as int == 0 { SameInt(Power(n), 0); }
    forall j: nat | j < n + 1
      ensures logs[Power(n) as int := ByteOf(n)][Power(j) as int] as int == LastLog(Power(j), n + 1)
    {
      LastLogAt(Power(j), n);
      if Power(j) as int == Power(n) as int { SameInt(Power(j), Power(n)); }
    }
  }

  /** Entry b is the logarithm of b. */
  ghost predicate IsLogTable(t: seq<Byte>) {
    |t| == 256 && forall b: Byte :: t[b as int] as int == Gflog(b)
  }

  lemma LogsComplete(logs: seq<Byte>)
    requires LogsUpTo(logs, 256)
    ensures IsLogTable(logs)
  {
    hide Power, LastLog;
    LastLogZero(256);
    forall b: Byte ensures logs[b as int] as int == Gflog(b) {
      if b != 0 {
        var j := EveryByteIsPower(b);
      }
    }
  }

  /** Builds both tables in one pass. */
  method MkGfField(gff: array<Byte>, gflog: array<Byte>)
    requires gff.Length == gflog.Length == 256 && gff != gflog
    modifies gff, gflog
    ensures forall i :: 0 <= i < 256 ==> gff[i] == Gff(i)
    ensures IsLogTable(gflog[..])
  {
    hide *;
    var s: Byte := 1;
    gflog[0] := 0;
    PowerZero();
    assert LogsUpTo(gflog[..], 0) by { LogsNone(gflog[..]); }
    var i := 0;
    while i < 256
      invariant 0 <= i <= 256 && s == Power(i)
      invariant forall j :: 0 <= j < i ==> gff[j] == Power(j)
      invariant LogsUpTo(gflog[..], i)
    {
      gff[i] := s;
      LogsStep(gflog[..], i);
      ghost var before := gflog[..];
      gflog[s as int] := ByteOf(i);
      assert gflog[..] == before[s as int := ByteOf(i)];
      PowerNext(i);
      s := XTime(s);
      i := i + 1;
    }
    LogsComplete(gflog[..]);
    forall k | 0 <= k < 256 ensures gff[k] == Gff(k) { GffIsPower(k); }
  }

  lemma PowerZero()
    ensures Power(0) == 1
  {
  }

  lemma GffIsPower(n: nat)
    requires n < 256
    ensures Gff(n) == Power(n)
  {
  }

  lemma LogsNone(logs: seq<Byte>)
    requires |logs| == 256 && logs[0] == 0
    ensures LogsUpTo(logs, 0)
  {
  }

  lemma PowerNext(n: nat)
    ensures Power(n + 1) == XTime(Power(n))
  {
  }

  lemma {:induction false} LastLogZero(n: nat)
    ensures LastLog(0, n) == 0
  {
    hide Power;
    if n > 0 { LastLogZero(n - 1); }
  }

  // ----- multiplication and inversion by table

  function GfMul(a: Byte, b: Byte): Byte {
    if a == 0 || b == 0 then 0
    else
      LogInvertsPower(a); LogInvertsPower(b);
      var i := Gflog(a) + Gflog(b);
      Gff(if i > 254 then i - 255 else i)
  }

  function GfInv(a: Byte): Byte {
    if a == 0 then 0 else Gff(255 - Gflog(a))
  }

  lemma PowerMinus255(n: nat)
    requires n >= 255
    ensures Power(n - 255) == Power(n)
  {
    hide Power;
    Power255();
    PowerModulo(n, 255);
    PowerModulo(n - 255, 255);
  }

  /** The table product adds exponents. */
  lemma GfMulPower(m: nat, n: nat)
    ensures GfMul(Power(m), Power(n)) == Power(m + n)
  {
    hide Power, LastLog, PolyMul;
    var a, b := Power(m), Power(n);
    LogInvertsPower(a); LogInvertsPower(b);
    var i := Gflog(a) + Gflog(b);
    if i > 254 { PowerMinus255(i); }
    PowerMul(Gflog(a), Gflog(b));
    PowerMul(m, n);
  }

  /** gf_mul computes the product of GF(2^8). */
  lemma GfMulIsPolyMul(a: Byte, b: Byte)
    ensures GfMul(a, b) == PolyMul(a, b)
  {
    hide Power, LastLog, PolyMul, PolyMulLow;
    if a == 0 {
      PolyMulZero(b);
    } else if b == 0 {
      PolyMulZero(a);
    } else {
      var m := EveryByteIsPower(a);
      var n := EveryByteIsPower(b);
      GfMulPower(m, n);
      PowerMul(m, n);
    }
  }

  lemma PolyMulZero(a: Byte)
    ensures PolyMul(0, a) == 0 == PolyMul(a, 0)
  {
    hide PolyMulLow, Add;
    PolyMulLowAddRight(a, 0, 0, 8);
    AddLaws(0, 0, 0);
    AddLaws(PolyMul(a, 0), PolyMul(a, 0), 0);
    PolyMulLowZero(a, 8);
  }

  lemma {:induction false} PolyMulLowZero(a: Byte, n: nat)
    ensures PolyMulLow(0, a, n) == 0
    decreases n
  {
    if n > 0 { PolyMulLowZero(a >> 1, n - 1); }
  }

  // ----- the field laws

  lemma MulZero(a: Byte, b: Byte)
    ensures GfMul(a, b) == 0 <==> a == 0 || b == 0
  {
    hide Power, LastLog, PolyMul;
  }

  lemma MulCommutes(a: Byte, b: Byte)
    ensures GfMul(a, b) == GfMul(b, a)
  {
    hide Power, LastLog;
  }

  lemma MulOne(a: Byte)
    ensures GfMul(1, a) == a == GfMul(a, 1)
  {
    hide GfMul, PolyMul;
    GfMulIsPolyMul(1, a);
    PolyMulOne(a);
    MulCommutes(1, a);
  }

  lemma MulAssociates(a: Byte, b: Byte, c: Byte)
    ensures GfMul(GfMul(a, b), c) == GfMul(a, GfMul(b, c))
  {
    hide Power, GfMul;
    MulZero(a, b); MulZero(b, c); MulZero(GfMul(a, b), c); MulZero(a, GfMul(b, c));
    if a != 0 && b != 0 && c != 0 {
      var l := EveryByteIsPower(a);
      var m := EveryByteIsPower(b);
      var n := EveryByteIsPower(c);
      GfMulPower(l, m); GfMulPower(m, n); GfMulPower(l + m, n); GfMulPower(l, m + n);
    }
  }

  lemma MulDistributes(a: Byte, b: Byte, c: Byte)
    ensures GfMul(a, Add(b, c)) == Add(GfMul(a, b), GfMul(a, c))
    ensures GfMul(Add(b, c), a) == Add(GfMul(b, a), GfMul(c, a))
  {
    hide GfMul, PolyMulLow, Add;
    GfMulIsPolyMul(a, Add(b, c)); GfMulIsPolyMul(a, b); GfMulIsPolyMul(a, c);
    PolyMulLowAddRight(a, b, c, 8);
    MulCommutes(a, Add(b, c)); MulCommutes(a, b); MulCommutes(a, c);
  }

  /** gf_inv returns the reciprocal of every nonzero byte, and 0 for 0. */
  lemma InvIsReciprocal(a: Byte)
    ensures a != 0 ==> GfMul(a, GfInv(a)) == 1 && GfInv(a) != 0
    ensures a == 0 ==> GfInv(a) == 0
  {
    hide Power, LastLog, GfMul;
    if a != 0 {
      LogInvertsPower(a);
      GfMulPower(Gflog(a), 255 - Gflog(a));
      Power255();
    }
  }
}
