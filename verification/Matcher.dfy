/** compare258: how far two stretches of the input agree, compared eight bytes at a time. */
module Matcher {
  import opened Arithmetic
  import opened Bits
  import opened BitStream

  // ----- little-endian loads

  /** The n bytes from p on as a number. */
  function LoadLe(input: seq<Octet>, p: nat, n: nat): nat
    requires p + n <= |input|
    decreases n
  {
    if n == 0 then 0 else input[p] + 256 * LoadLe(input, p + 1, n - 1)
  }

  function LoadLe32(input: seq<Octet>, p: nat): nat
    requires p + 4 <= |input|
  {
    LoadLe(input, p, 4)
  }

  function LoadLe64(input: seq<Octet>, p: nat): nat
    requires p + 8 <= |input|
  {
    LoadLe(input, p, 8)
  }

  lemma Pow2Bytes(n: nat)
    requires n > 0
    ensures Pow2(8 * n) == 256 * Pow2(8 * (n - 1))
  {
    Pow2Eight();
    Pow2Add(8, 8 * (n - 1));
  }

  lemma {:induction false} LoadLeBound(input: seq<Octet>, p: nat, n: nat)
    requires p + n <= |input|
    ensures LoadLe(input, p, n) < Pow2(8 * n)
    decreases n
  {
    if n > 0 {
      Pow2Bytes(n);
      LoadLeBound(input, p + 1, n - 1);
    }
  }

  /** The n bytes from p on are those from q on. */
  ghost predicate Agree(input: seq<Octet>, p: nat, q: nat, n: nat) {
    p + n <= |input| && q + n <= |input| && input[p..p + n] == input[q..q + n]
  }

  lemma AgreeFirst(input: seq<Octet>, p: nat, q: nat, n: nat)
    requires n > 0 && p + n <= |input| && q + n <= |input|
    ensures Agree(input, p, q, n) <==> input[p] == input[q] && Agree(input, p + 1, q + 1, n - 1)
  {
    assert input[p..p + n] == [input[p]] + input[p + 1..p + n];
    assert input[q..q + n] == [input[q]] + input[q + 1..q + n];
    assert input[p..p + n][1..] == input[p + 1..p + n] && input[q..q + n][1..] == input[q + 1..q + n];
  }

  /** The exclusive or of two loads vanishes in its low j bytes exactly when those bytes agree. */
  lemma {:induction false} XorOfLoads(input: seq<Octet>, p: nat, q: nat, n: nat, j: nat)
    requires p + n <= |input| && q + n <= |input| && j <= n
    ensures Xor(LoadLe(input, p, n), LoadLe(input, q, n)) % Pow2(8 * j) == 0 <==> Agree(input, p, q, j)
    decreases n
  {
    hide Xor, Agree;
    if j > 0 {
      hide Pow2;
      var a, b := LoadLe(input, p + 1, n - 1), LoadLe(input, q + 1, n - 1);
      XorOfLoads(input, p + 1, q + 1, n - 1, j - 1);
      XorBytes(input[p], input[q], a, b);
      Pow2Bytes(j);
      XorByteBound(input[p], input[q]);
      LowByteZero(Xor(input[p], input[q]), Xor(a, b), Pow2(8 * (j - 1)));
      AgreeFirst(input, p, q, j);
    } else {
      AgreeNone(input, p, q);
    }
  }

  lemma AgreeNone(input: seq<Octet>, p: nat, q: nat)
    requires p <= |input| && q <= |input|
    ensures Agree(input, p, q, 0) && forall a: nat :: a % Pow2(0) == 0
  {
  }

  /** x + 256*y is a multiple of 256*p exactly when x is 0 and y is a multiple of p. */
  lemma LowByteZero(x: nat, y: nat, p: nat)
    requires x < 256 && p > 0
    ensures (x + 256 * y) % (256 * p) == 0 <==> x == 0 && y % p == 0
  {
    var q, r := y / p, y % p;
    assert x + 256 * y == q * (256 * p) + (x + 256 * r);
    DivModUnique(x + 256 * y, q, x + 256 * r, 256 * p);
  }

  lemma {:induction false} XorByteBound(a: nat, b: nat)
    requires a < 256 && b < 256
    ensures Xor(a, b) < 256 && (Xor(a, b) == 0 <==> a == b)
  {
    XorBelow(a, b, 8);
    Pow2Eight();
  }

  lemma XorBytes(a: Octet, b: Octet, high: nat, high': nat)
    ensures Xor(a + 256 * high, b + 256 * high') == Xor(a, b) + 256 * Xor(high, high')
  {
    Pow2Eight();
    XorParts(a, b, high, high', 8);
  }

  // ----- counting trailing zero bytes

  /** Shifting left by k bytes leaves 0 exactly when the low 8-k bytes are 0. */
  lemma ShiftedOut(val: nat, k: nat)
    requires k <= 8
    ensures (val * Pow2(8 * k)) % WORD == 0 <==> val % Pow2(64 - 8 * k) == 0
  {
    WordIsPow2();
    Pow2Add(8 * k, 64 - 8 * k);
    hide Pow2;
    ScaledModulo(val, Pow2(8 * k), Pow2(64 - 8 * k));
  }

  lemma ScaledModulo(a: nat, p: nat, q: nat)
    requires p > 0 && q > 0
    ensures (a * p) % (p * q) == (a % q) * p
  {
    var d, r := a / q, a % q;
    assert a * p == d * (p * q) + r * p by {
      assert a == d * q + r;
      assert (d * q) * p == d * (p * q);
      Factor(a, d * q, p);
    }
    SmallerProduct(r, q, p);
    assert 0 <= r * p < p * q;
    DivModUnique(a * p, d, r * p, p * q);
  }

  lemma ShiftAgain(val: nat, k: nat)
    ensures ((val * Pow2(8 * k)) % WORD * 256) % WORD == (val * Pow2(8 * (k + 1))) % WORD
  {
    Pow2Bytes(k + 1);
    hide Pow2;
    var p := Pow2(8 * k);
    assert val * (256 * p) == (val * p) * 256;
    ModuloProduct(val * p, 256, WORD);
  }

  lemma ModuloProduct(a: nat, b: nat, m: nat)
    requires m > 0
    ensures (a % m * b) % m == (a * b) % m
  {
    var d, r := a / m, a % m;
    var e := r * b / m;
    assert a * b == (d * b) * m + r * b by {
      assert a == d * m + r;
      assert (d * m) * b == (d * b) * m;
      Factor(a, d * m, b);
    }
    assert a * b == (d * b + e) * m + (r * b) % m;
    DivModUnique(a * b, d * b + e, (r * b) % m, m);
  }

  /** The number of low zero bytes of a nonzero word. */
  method TzByteCnt(val: nat) returns (cnt: nat)
    requires 0 < val < WORD
    ensures cnt < 8 && val % Pow2(8 * cnt) == 0 && val % Pow2(8 * (cnt + 1)) != 0
  {
    hide Pow2;
    WordIsPow2();
    cnt := 8;
    var v := val;
    ghost var k := 0;
    ShiftedOut(val, 0);
    NoShift(val);
    while v > 0
      invariant k <= 8 && cnt == 8 - k && v == (val * Pow2(8 * k)) % WORD
      invariant k > 0 ==> val % Pow2(64 - 8 * (k - 1)) != 0
      decreases 8 - k
    {
      ShiftedOut(val, k);
      if k == 8 { OneShiftMore(val); }
      ShiftAgain(val, k);
      v := (v * 256) % WORD;
      cnt := cnt - 1;
      k := k + 1;
    }
    ShiftedOut(val, k);
    assert 64 - 8 * k == 8 * cnt;
    assert k > 0 ==> 64 - 8 * (k - 1) == 8 * (cnt + 1);
  }

  lemma NoShift(val: nat)
    requires val < WORD
    ensures (val * Pow2(8 * 0)) % WORD == val
  {
    assert Pow2(0) == 1;
  }

  lemma OneShiftMore(val: nat)
    ensures val % Pow2(64 - 8 * 8) == 0
  {
    assert Pow2(0) == 1;
  }

  // ----- comparing

  /** count is how far the bytes from p and from q on agree, up to max. */
  ghost predicate IsMatchLength(input: seq<Octet>, p: nat, q: nat, max: nat, count: nat) {
    && count <= max && p + max <= |input| && q + max <= |input|
    && Agree(input, p, q, count)
    && (count < max ==> input[p + count] != input[q + count])
  }

  lemma AgreeJoin(input: seq<Octet>, p: nat, q: nat, m: nat, n: nat)
    requires Agree(input, p, q, m) && Agree(input, p + m, q + m, n)
    ensures Agree(input, p, q, m + n)
  {
    assert input[p..p + m + n] == input[p..p + m] + input[p + m..p + m + n];
    assert input[q..q + m + n] == input[q..q + m] + input[q + m..q + m + n];
  }

  lemma AgreeLonger(input: seq<Octet>, p: nat, q: nat, n: nat)
    requires p + n < |input| && q + n < |input| && Agree(input, p, q, n)
    ensures Agree(input, p, q, n + 1) <==> input[p + n] == input[q + n]
  {
    assert input[p..p + n + 1] == input[p..p + n] + [input[p + n]];
    assert input[q..q + n + 1] == input[q..q + n] + [input[q + n]];
    assert input[p..p + n + 1][n] == input[p + n] && input[q..q + n + 1][n] == input[q + n];
  }

  /** What the first nonzero byte of the exclusive or of two words tells. */
  lemma WordsDiffer(input: seq<Octet>, p: nat, q: nat, cnt: nat)
    requires p + 8 <= |input| && q + 8 <= |input| && cnt < 8
    requires Xor(LoadLe64(input, p), LoadLe64(input, q)) % Pow2(8 * cnt) == 0
    requires Xor(LoadLe64(input, p), LoadLe64(input, q)) % Pow2(8 * (cnt + 1)) != 0
    ensures Agree(input, p, q, cnt) && input[p + cnt] != input[q + cnt]
  {
    hide Xor, Pow2;
    XorOfLoads(input, p, q, 8, cnt);
    XorOfLoads(input, p, q, 8, cnt + 1);
    AgreeLonger(input, p, q, cnt);
  }

  lemma XorWordBound(input: seq<Octet>, p: nat, q: nat)
    requires p + 8 <= |input| && q + 8 <= |input|
    ensures Xor(LoadLe64(input, p), LoadLe64(input, q)) < WORD
    ensures Xor(LoadLe64(input, p), LoadLe64(input, q)) == 0 ==> Agree(input, p, q, 8)
  {
    hide Xor, Pow2;
    WordIsPow2();
    LoadLeBound(input, p, 8);
    LoadLeBound(input, q, 8);
    XorBelow(LoadLe64(input, p), LoadLe64(input, q), 64);
    XorOfLoads(input, p, q, 8, 8);
  }

  /** How far the bytes from str1 and str2 on agree, up to maxLength and 258. */
  method Compare258(input: seq<Octet>, str1: nat, str2: nat, maxLength: nat) returns (count: nat)
    requires str1 <= str2 && str2 + (if maxLength > 258 then 258 else maxLength) <= |input|
    ensures IsMatchLength(input, str1, str2, if maxLength > 258 then 258 else maxLength, count)
  {
    count := Compare(input, str1, str2, if maxLength > 258 then 258 else maxLength);
  }

  /** How far the bytes from str1 and str2 on agree, up to max. */
  method Compare(input: seq<Octet>, str1: nat, str2: nat, max: nat) returns (count: nat)
    requires str1 <= str2 && str2 + max <= |input|
    ensures IsMatchLength(input, str1, str2, max, count)
  {
    hide Xor, Pow2, LoadLe64, LoadLe, Agree;
    var loopLength := 8 * (max / 8); // max_length & ~0x7
    var p, q := str1, str2;
    count := 0;
    ghost var words := 0;
    AgreeNone(input, p, q);
    while count < loopLength
      invariant count == 8 * words && count <= loopLength && p == str1 + count && q == str2 + count
      invariant Agree(input, str1, str2, count)
    {
      var test := Xor(LoadLe64(input, p), LoadLe64(input, q));
      XorWordBound(input, p, q);
      if test != 0 {
        var cnt := TzByteCnt(test);
        WordsDiffer(input, p, q, cnt);
        AgreeJoin(input, str1, str2, count, cnt);
        return count + cnt;
      }
      AgreeJoin(input, str1, str2, count, 8);
      p := p + 8;
      q := q + 8;
      count := count + 8;
      words := words + 1;
    }
    count := CompareTail(input, str1, str2, max, count);
  }

  /** The last bytes, one by one. */
  method CompareTail(input: seq<Octet>, str1: nat, str2: nat, max: nat, start: nat) returns (count: nat)
    requires str1 <= str2 && str2 + max <= |input| && start <= max && Agree(input, str1, str2, start)
    ensures IsMatchLength(input, str1, str2, max, count)
  {
    hide Agree;
    count := start;
    var p, q := str1 + count, str2 + count;
    while count < max
      invariant count <= max && p == str1 + count && q == str2 + count
      invariant Agree(input, str1, str2, count)
    {
      AgreeLonger(input, str1, str2, count);
      if input[p] != input[q] { return; }
      p := p + 1;
      q := q + 1;
      count := count + 1;
    }
  }

  /** The same as a function: the longest common stretch, up to max. */
  function MatchLength(input: seq<Octet>, p: nat, q: nat, max: nat): (count: nat)
    requires p + max <= |input| && q + max <= |input|
    ensures count <= max
    decreases max
  {
    if max == 0 || input[p] != input[q] then 0 else 1 + MatchLength(input, p + 1, q + 1, max - 1)
  }

  lemma {:induction false} MatchLengthUnique(input: seq<Octet>, p: nat, q: nat, max: nat, count: nat)
    requires IsMatchLength(input, p, q, max, count)
    ensures MatchLength(input, p, q, max) == count
    decreases max
  {
    hide Agree;
    if max > 0 {
      if count > 0 {
        AgreeFirst(input, p, q, count);
        MatchLengthUnique(input, p + 1, q + 1, max - 1, count - 1);
      }
    }
  }

  lemma {:induction false} MatchLengthAgrees(input: seq<Octet>, p: nat, q: nat, max: nat)
    requires p + max <= |input| && q + max <= |input|
    ensures Agree(input, p, q, MatchLength(input, p, q, max))
    decreases max
  {
    hide Agree;
    if max == 0 || input[p] != input[q] {
      AgreeNone(input, p, q);
    } else {
      MatchLengthAgrees(input, p + 1, q + 1, max - 1);
      AgreeFirst(input, p, q, MatchLength(input, p, q, max));
    }
  }
}
