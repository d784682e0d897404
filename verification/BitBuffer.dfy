/** The bit accumulator of bitbuf2.h: up to 63 pending bits in a 64-bit word, spilled with 8-byte
    stores into a bounded output buffer. */
module BitBuffer {
  import opened Arithmetic
  import opened Bits
  import opened BitStream

  /** a << n on uint64_t. */
  function Shl64(a: nat, n: nat): nat {
    (a * Pow2(n)) % WORD
  }

  lemma ShlFits(a: nat, m: nat, n: nat)
    requires a < Pow2(m) && m + n <= 64
    ensures Shl64(a, n) == a * Pow2(n) && a * Pow2(n) + Pow2(n) <= Pow2(m + n)
  {
    WordIsPow2();
    hide Pow2;
    Pow2Add(m, n);
    SmallerProduct(a, Pow2(m), Pow2(n));
    Pow2AtMost(m + n, 64);
    SmallModulo(a * Pow2(n), WORD);
  }

  /** Appending a field to pending bits. */
  lemma FieldAppended(bits: nat, count: nat, code: nat, n: nat)
    requires bits < Pow2(count) && code < Pow2(n) && count + n <= 64
    ensures Or(bits, Shl64(code, count)) == bits + code * Pow2(count) < Pow2(count + n)
    ensures NatBits(Or(bits, Shl64(code, count)), count + n) == NatBits(bits, count) + NatBits(code, n)
  {
    hide Pow2, Or, NatBits, Shl64;
    ShlFits(code, n, count);
    OrDisjoint(bits, code, count);
    NatBitsJoin(bits, code, count, n);
  }

  /** Spilling the complete bytes of a word keeps the bits in order. */
  lemma BitsSpilled(bits: nat, count: nat, bytes: nat)
    requires bits < Pow2(count) && 8 * bytes <= count && bytes <= 8
    ensures ByteBits(LittleEndian(bits, 8)[..bytes]) + NatBits(Shr(bits, 8 * bytes), count - 8 * bytes)
      == NatBits(bits, count)
    ensures Shr(bits, 8 * bytes) < Pow2(count - 8 * bytes)
  {
    LittleEndianPrefix(bits, bytes, 8);
    LittleEndianBits(bits, bytes);
    NatBitsSplit(bits, 8 * bytes, count - 8 * bytes);
    ShrBound(bits, 8 * bytes, count - 8 * bytes);
  }

  lemma ShrBound(a: nat, m: nat, n: nat)
    requires a < Pow2(m + n)
    ensures Shr(a, m) < Pow2(n)
  {
    Pow2Add(m, n);
    hide Pow2;
    var p, q := Pow2(m), Shr(a, m);
    assert q * p <= a;
    if q >= Pow2(n) { ProductMonotone(Pow2(n), q, p); }
  }

  /** How many bits are missing from a whole number of bytes. */
  function Padding(count: nat): nat {
    (8 - count % 8) % 8
  }

  class BitBuf2 {
    var mBits: nat
    var mBitCount: nat
    var buf: array<Octet>
    var mOutStart: nat
    var mOutBuf: nat
    var mOutEnd: int

    ghost predicate Valid()
      reads this, buf
    {
      && mBits < Pow2(mBitCount) && mBitCount <= 63
      && mOutStart <= mOutBuf <= buf.Length && mOutEnd + 8 <= buf.Length
    }

    /** The state at the exit of write_bits: less than a byte is pending. */
    ghost predicate Settled()
      reads this, buf
    {
      Valid() && mBitCount <= 7
    }

    /** The bits written since set_buf, and the bits that were pending then. */
    ghost function Stream(): (s: seq<bool>)
      reads this, buf
      requires Valid()
    {
      ByteBits(buf[mOutStart..mOutBuf]) + NatBits(mBits, mBitCount)
    }

    constructor Init(b: array<Octet>)
      ensures Settled() && buf == b && mOutStart == mOutBuf == 0 && mBitCount == 0
    {
      mBits := 0;
      mBitCount := 0;
      buf := b;
      mOutStart, mOutBuf, mOutEnd := 0, 0, -8;
    }

    /** Directs output to len bytes at start of b; pending bits stay pending. */
    method SetBuf(b: array<Octet>, start: nat, len: nat)
      requires mBits < Pow2(mBitCount) && mBitCount <= 63 && start + len <= b.Length
      modifies this
      ensures Valid() && buf == b && mOutStart == mOutBuf == start && mOutEnd == start + len - 8
      ensures mBits == old(mBits) && mBitCount == old(mBitCount)
      ensures Stream() == NatBits(mBits, mBitCount)
    {
      var slop := 8;
      buf := b;
      mOutBuf := start;
      mOutStart := start;
      mOutEnd := start + len - slop;
    }

    predicate IsFull()
      reads this
    {
      mOutBuf > mOutEnd
    }

    function BufferUsed(): int
      reads this
    {
      mOutBuf - mOutStart
    }

    /** Stores the eight bytes of v at the output position. */
    method StoreLe64(v: nat)
      requires mOutBuf + 8 <= buf.Length
      modifies buf
      ensures buf[mOutBuf..mOutBuf + 8] == LittleEndian(v, 8)
      ensures forall p :: 0 <= p < buf.Length && !(mOutBuf <= p < mOutBuf + 8) ==> buf[p] == old(buf[p])
    {
      var bytes := LittleEndian(v, 8);
      forall q | 0 <= q < 8 {
        buf[mOutBuf + q] := bytes[q];
      }
    }

    /** Spills all complete bytes. */
    method FlushBits()
      requires Valid() && mOutBuf + 8 <= buf.Length
      modifies this`mBits, this`mBitCount, this`mOutBuf, buf
      ensures Settled() && old(mOutBuf) <= mOutBuf <= old(mOutBuf) + 7
      ensures Stream() == old(Stream())
      ensures forall p :: 0 <= p < buf.Length && !(old(mOutBuf) <= p < old(mOutBuf) + 8) ==> buf[p] == old(buf[p])
    {
      hide NatBits, LittleEndian, Pow2, Shr, ByteBits;
      ghost var head := buf[mOutStart..mOutBuf];
      StoreLe64(mBits);
      assert buf[mOutStart..mOutBuf] == head;
      var bytes := mBitCount / 8;
      var bits := 8 * bytes; // m_bit_count & ~7
      BitsSpilled(mBits, mBitCount, bytes);
      ghost var spilled := buf[mOutBuf..mOutBuf + bytes];
      assert spilled == LittleEndian(mBits, 8)[..bytes];
      assert buf[mOutStart..mOutBuf + bytes] == head + spilled;
      ByteBitsAppend(head, spilled);
      mBitCount := mBitCount - bits;
      mOutBuf := mOutBuf + bits / 8;
      mBits := Shr(mBits, bits);
    }

    /** Appends count bits of code; the caller knows that there is room. */
    method WriteBitsUnsafe(code: nat, count: nat)
      requires Valid() && code < Pow2(count) && mBitCount + count <= 63
      modifies this`mBits, this`mBitCount
      ensures Valid() && mBitCount == old(mBitCount) + count
      ensures Stream() == old(Stream()) + NatBits(code, count)
    {
      hide NatBits, ByteBits, Or, Shl64, Pow2;
      FieldAppended(mBits, mBitCount, code, count);
      mBits := Or(mBits, Shl64(code, mBitCount));
      mBitCount := mBitCount + count;
    }

    /** Appends count bits of code, for which there is room in m_bits, and spills. */
    method WriteBits(code: nat, count: nat)
      requires Valid() && code < Pow2(count) && mBitCount + count <= 63 && mOutBuf + 8 <= buf.Length
      modifies this`mBits, this`mBitCount, this`mOutBuf, buf
      ensures Settled() && old(mOutBuf) <= mOutBuf <= old(mOutBuf) + 7
      ensures Stream() == old(Stream()) + NatBits(code, count)
      ensures forall p :: 0 <= p < buf.Length && !(old(mOutBuf) <= p < old(mOutBuf) + 8) ==> buf[p] == old(buf[p])
    {
      WriteBitsUnsafe(code, count);
      FlushBits();
    }

    /** Spills everything, padding the last byte with zero bits. */
    method Flush()
      requires Valid() && mOutBuf + 8 <= buf.Length
      modifies this`mBits, this`mBitCount, this`mOutBuf, buf
      ensures Settled() && mBitCount == 0 && mOutBuf == old(mOutBuf) + (old(mBitCount) + 7) / 8
      ensures Stream() == old(Stream()) + NatBits(0, Padding(old(mBitCount)))
      ensures forall p :: 0 <= p < buf.Length && !(old(mOutBuf) <= p < old(mOutBuf) + 8) ==> buf[p] == old(buf[p])
    {
      hide NatBits, LittleEndian, Pow2, ByteBits, Padding;
      NoBits(0);
      NoPadding();
      if mBitCount != 0 {
        ghost var head := buf[mOutStart..mOutBuf];
        StoreLe64(mBits);
        var bytes := (mBitCount + 7) / 8;
        BitsPadded(mBits, mBitCount, bytes);
        ghost var spilled := buf[mOutBuf..mOutBuf + bytes];
        assert spilled == LittleEndian(mBits, 8)[..bytes];
        assert buf[mOutStart..mOutBuf + bytes] == head + spilled;
        ByteBitsAppend(head, spilled);
        mOutBuf := mOutBuf + bytes;
      }
      mBits := 0;
      mBitCount := 0;
      ZeroFits();
    }

    /** Makes room for num_bits more bits, if at most 56 are asked for. */
    method CheckSpace(numBits: nat)
      requires Valid() && mOutBuf + 8 <= buf.Length && numBits <= 56
      modifies this`mBits, this`mBitCount, this`mOutBuf, buf
      ensures Valid() && mBitCount + numBits <= 63 && old(mOutBuf) <= mOutBuf <= old(mOutBuf) + 7
      ensures Stream() == old(Stream())
      ensures forall p :: 0 <= p < buf.Length && !(old(mOutBuf) <= p < old(mOutBuf) + 8) ==> buf[p] == old(buf[p])
    {
      if 63 - mBitCount < numBits {
        FlushBits();
      }
    }

    /** Appends count bits of code and spills everything. */
    method WriteBitsFlush(code: nat, count: nat)
      requires Valid() && code < Pow2(count) && mBitCount + count <= 63 && mOutBuf + 8 <= buf.Length
      modifies this`mBits, this`mBitCount, this`mOutBuf, buf
      ensures Settled() && mBitCount == 0 && mOutBuf == old(mOutBuf) + (old(mBitCount) + count + 7) / 8
      ensures Stream() == old(Stream()) + NatBits(code, count) + NatBits(0, Padding(old(mBitCount) + count))
      ensures forall p :: 0 <= p < buf.Length && !(old(mOutBuf) <= p < old(mOutBuf) + 8) ==> buf[p] == old(buf[p])
    {
      WriteBitsUnsafe(code, count);
      Flush();
    }
  }

  lemma ZeroFits()
    ensures 0 < Pow2(0)
  {
  }

  lemma NoPadding()
    ensures Padding(0) == 0
  {
  }

  lemma NoBits(a: nat)
    ensures NatBits(a, 0) == []
  {
  }

  lemma {:induction false} NatBitsPadded(a: nat, m: nat, n: nat)
    requires a < Pow2(m)
    ensures NatBits(a, m + n) == NatBits(a, m) + NatBits(0, n)
  {
    NatBitsJoin(a, 0, m, n);
  }

  lemma BitsPadded(bits: nat, count: nat, bytes: nat)
    requires bits < Pow2(count) && bytes == (count + 7) / 8 && count <= 63
    ensures bytes <= 8 && 8 * bytes - count == Padding(count)
    ensures ByteBits(LittleEndian(bits, 8)[..bytes]) == NatBits(bits, count) + NatBits(0, 8 * bytes - count)
  {
    hide *;
    PaddingSize(count, bytes);
    LittleEndianPrefix(bits, bytes, 8);
    LittleEndianBits(bits, bytes);
    NatBitsPadded(bits, count, 8 * bytes - count);
  }

  lemma PaddingSize(count: nat, bytes: nat)
    requires bytes == (count + 7) / 8 && count <= 63
    ensures bytes <= 8 && 8 * bytes - count == Padding(count)
  {
  }
}
