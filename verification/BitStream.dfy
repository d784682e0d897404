/** Bit sequences as section 3.1.1 of RFC 1951 packs them: least significant bit first. */
module BitStream {
  import opened Arithmetic
  import opened Bits

  type Octet = x: nat | x < 256

  /** The n low bits of a, least significant first. */
  function NatBits(a: nat, n: nat): (s: seq<bool>)
    ensures |s| == n
  {
    if n == 0 then [] else [a % 2 == 1] + NatBits(a / 2, n - 1)
  }

  /** The bits of a sequence of bytes. */
  function ByteBits(b: seq<Octet>): (s: seq<bool>)
    ensures |s| == 8 * |b|
  {
    if b == [] then [] else NatBits(b[0], 8) + ByteBits(b[1..])
  }

  /** The n low bytes of a, least significant first. */
  function LittleEndian(a: nat, n: nat): (b: seq<Octet>)
    ensures |b| == n
  {
    if n == 0 then [] else [a % 256] + LittleEndian(a / 256, n - 1)
  }

  /** The value of a sequence of bits. */
  function BitsValue(s: seq<bool>): nat {
    if s == [] then 0 else (if s[0] then 1 else 0) + 2 * BitsValue(s[1..])
  }

  lemma {:induction false} NatBitsSplit(a: nat, m: nat, n: nat)
    ensures NatBits(a, m + n) == NatBits(a, m) + NatBits(Shr(a, m), n)
    decreases m
  {
    if m == 0 {
      assert NatBits(a, 0) + NatBits(Shr(a, 0), n) == NatBits(a, n);
    } else {
      NatBitsSplit(a / 2, m - 1, n);
      DivDiv(a, 2, Pow2(m - 1));
      assert Shr(a / 2, m - 1) == Shr(a, m);
      assert NatBits(a, m + n) == [a % 2 == 1] + (NatBits(a / 2, m - 1) + NatBits(Shr(a, m), n));
    }
  }

  /** Only the low n bits matter. */
  lemma {:induction false} NatBitsModulo(a: nat, h: nat, n: nat)
    ensures NatBits(a + h * Pow2(n), n) == NatBits(a, n)
    decreases n
  {
    if n > 0 {
      var m := h * Pow2(n - 1);
      DoubleProduct(h, Pow2(n - 1));
      assert (a + 2 * m) / 2 == a / 2 + m;
      NatBitsModulo(a / 2, h, n - 1);
    }
  }

  /** Joining two fields concatenates their bits. */
  lemma NatBitsJoin(low: nat, high: nat, m: nat, n: nat)
    requires low < Pow2(m)
    ensures NatBits(low + high * Pow2(m), m + n) == NatBits(low, m) + NatBits(high, n)
  {
    hide NatBits, Pow2;
    NatBitsSplit(low + high * Pow2(m), m, n);
    NatBitsModulo(low, high, m);
    DivModUnique(low + high * Pow2(m), high, low, Pow2(m));
  }

  lemma {:induction false} BitsValueInverts(a: nat, n: nat)
    requires a < Pow2(n)
    ensures BitsValue(NatBits(a, n)) == a
    decreases n
  {
    if n > 0 {
      BitsValueInverts(a / 2, n - 1);
      assert NatBits(a, n)[1..] == NatBits(a / 2, n - 1);
    }
  }

  lemma {:induction false} ByteBitsAppend(b: seq<Octet>, c: seq<Octet>)
    ensures ByteBits(b + c) == ByteBits(b) + ByteBits(c)
  {
    hide NatBits;
    if b == [] {
      assert b + c == c;
    } else {
      ByteBitsAppend(b[1..], c);
      FirstByteBits(b);
      FirstByteBits(b + c);
      assert (b + c)[1..] == b[1..] + c;
      hide ByteBits;
      assert NatBits(b[0], 8) + (ByteBits(b[1..]) + ByteBits(c)) == ByteBits(b) + ByteBits(c);
    }
  }

  lemma FirstByteBits(b: seq<Octet>)
    requires b != []
    ensures ByteBits(b) == NatBits(b[0], 8) + ByteBits(b[1..])
  {
  }

  /** Storing a word in memory keeps its bits in order. */
  lemma {:induction false} LittleEndianBits(a: nat, n: nat)
    ensures ByteBits(LittleEndian(a, n)) == NatBits(a, 8 * n)
  {
    if n > 0 {
      assert Pow2(8) == 256 by { Pow2Eight(); }
      LittleEndianBits(a / 256, n - 1);
      NatBitsSplit(a, 8, 8 * (n - 1));
      NatBitsModulo(a % 256, a / 256, 8);
      assert a == a % 256 + (a / 256) * 256;
      assert LittleEndian(a, n)[1..] == LittleEndian(a / 256, n - 1);
    }
  }

  lemma {:induction false} LittleEndianPrefix(a: nat, m: nat, n: nat)
    requires m <= n
    ensures LittleEndian(a, n)[..m] == LittleEndian(a, m)
    decreases m
  {
    if m > 0 { LittleEndianPrefix(a / 256, m - 1, n - 1); }
  }
}
