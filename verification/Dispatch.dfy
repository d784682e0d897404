/** The row-blocking dispatchers of ec_highlevel_func.c: six rows at a time, then the remainder.
    The vector kernels are given the contract of the base functions on their rows. */
module Dispatch {
  import opened GaloisField
  import opened Encode

  /** The coefficients of a block of rows are those of the whole, counted from the start of the block. */
  lemma CoefsOfBlock(v: seq<Byte>, base: nat, k: nat, first: nat, l: nat)
    ensures Coefs(v, base + first * k * 32, k, l) == Coefs(v, base, k, first + l)
  {
    assert first * k * 32 + l * k * 32 == (first + l) * k * 32;
  }

  lemma NextTables(done: nat, k: nat)
    ensures (done + 6) * k * 32 == done * k * 32 + 6 * k * 32
  {
  }

  lemma BlockFits(k: nat, n: nat, rows: nat, base: nat, size: nat)
    requires n <= rows && base + 32 * k * rows <= size
    ensures base + 32 * k * n <= base + n * k * 32 + 32 * k * (rows - n) <= size
  {
    assert 32 * k * rows == n * k * 32 + 32 * k * (rows - n);
  }

  // ----- blocks of buffers

  /** The buffers of a block are distinct from one another and from the rest. */
  lemma BlockDisjoint(coding: seq<array<Byte>>, first: nat, n: nat, len: nat)
    requires Distinct(coding) && Buffers(coding, len) && first + n <= |coding|
    ensures Distinct(coding[first..first + n]) && Buffers(coding[first..first + n], len)
    ensures forall l :: 0 <= l < first || first + n <= l < |coding| ==> coding[l] !in coding[first..first + n]
  {
  }

  lemma BlockContents(coding: seq<array<Byte>>, first: nat, n: nat)
    requires first + n <= |coding|
    ensures Contents(coding[first..first + n]) == Contents(coding)[first..first + n]
  {
  }

  /** Only the rows from first up to first + n have changed. */
  ghost predicate OnlyBlock(before: seq<seq<Byte>>, after: seq<seq<Byte>>, first: nat, n: nat) {
    && |before| == |after| && first + n <= |after|
    && after[..first] == before[..first] && after[first + n..] == before[first + n..]
  }

  lemma BlockChanged(before: seq<seq<Byte>>, after: seq<seq<Byte>>, first: nat, n: nat)
    requires |before| == |after| && first + n <= |after|
    requires forall l :: 0 <= l < first || first + n <= l < |after| ==> after[l] == before[l]
    ensures OnlyBlock(before, after, first, n)
  {
  }

  // ----- encoding

  /** gf_vect_dot_prod_sse, ..., gf_6vect_dot_prod_sse on n rows from the given one on. */
  method VectDotProd(n: nat, len: nat, k: nat, gTbls: array<Byte>, tables: nat, data: seq<array<Byte>>,
                     coding: seq<array<Byte>>, first: nat)
    requires 1 <= n <= 6 && first + n <= |coding|
    requires |data| == k && Buffers(data, len)
    requires Buffers(coding, len) && Distinct(coding)
    requires gTbls !in coding && forall l :: 0 <= l < |coding| ==> coding[l] !in data
    requires tables + 32 * k * n <= gTbls.Length
    modifies coding
    ensures Contents(data) == old(Contents(data)) && gTbls[..] == old(gTbls[..])
    ensures OnlyBlock(old(Contents(coding)), Contents(coding), first, n)
    ensures Encoded(gTbls[..], tables, Contents(data), Contents(coding)[first..first + n], len)
    ensures TailsKept(old(Contents(coding)[first..first + n]),
                    Contents(coding)[first..first + n], len)
  {
    hide Encoded, TailsKept, OnlyBlock, Distinct, Buffers;
    var block := coding[first..first + n];
    BlockDisjoint(coding, first, n, len);
    BlockContents(coding, first, n);
    EcEncodeDataBase(len, k, n, gTbls, tables, data, block);
    BlockContents(coding, first, n);
    BlockChanged(old(Contents(coding)), Contents(coding), first, n);
  }

  /** ec_encode_data_sse computes what ec_encode_data_base computes. */
  method EcEncodeDataSse(len: nat, k: nat, rows: nat, gTbls: array<Byte>, base: nat, data: seq<array<Byte>>,
                         coding: seq<array<Byte>>)
    requires |data| == k && Buffers(data, len)
    requires |coding| == rows && Buffers(coding, len) && Distinct(coding)
    requires gTbls !in coding && forall l :: 0 <= l < rows ==> coding[l] !in data
    requires base + 32 * k * rows <= gTbls.Length
    modifies coding
    ensures Encoded(gTbls[..], base, Contents(data), Contents(coding), len)
    ensures TailsKept(old(Contents(coding)), Contents(coding), len)
  {
    hide Encoded, TailsKept, EncodedUpTo, Distinct, Buffers;
    if len < 16 {
      EcEncodeDataBase(len, k, rows, gTbls, base, data, coding);
      return;
    }
    ghost var v, source, before := gTbls[..], Contents(data), Contents(coding);
    var done, left, tables := 0, rows, base;
    NothingEncoded(v, base, source, before, len);
    while left >= 6
      invariant 0 <= left && 0 <= done && done + left == rows && tables == base + done * k * 32
      invariant Contents(data) == source && gTbls[..] == v
      invariant EncodedUpTo(v, base, source, before, Contents(coding), done, len)
    {
      BlockFits(k, done, rows, base, gTbls.Length);
      BlockFits(k, 6, left, tables, gTbls.Length);
      ghost var out := Contents(coding);
      VectDotProd(6, len, k, gTbls, tables, data, coding, done);
      EncodedMore(v, base, source, before, out, Contents(coding), done, 6, len);
      NextTables(done, k);
      tables := tables + 6 * k * 32;
      done := done + 6;
      left := left - 6;
    }
    if left > 0 {
      BlockFits(k, done, rows, base, gTbls.Length);
      BlockFits(k, left, left, tables, gTbls.Length);
      ghost var out := Contents(coding);
      VectDotProd(left, len, k, gTbls, tables, data, coding, done);
      EncodedMore(v, base, source, before, out, Contents(coding), done, left, len);
      done := done + left;
    }
    EncodedAll(v, base, source, before, Contents(coding), len);
  }

  /** The first done rows are encoded, and the others are as before. */
  ghost predicate EncodedUpTo(v: seq<Byte>, base: nat, data: seq<seq<Byte>>, before: seq<seq<Byte>>,
                              out: seq<seq<Byte>>, done: nat, len: nat) {
    && |before| == |out| && done <= |out|
    && Encoded(v, base, data, out[..done], len) && TailsKept(before[..done], out[..done], len)
    && out[done..] == before[done..]
  }

  lemma NothingEncoded(v: seq<Byte>, base: nat, data: seq<seq<Byte>>, before: seq<seq<Byte>>, len: nat)
    ensures EncodedUpTo(v, base, data, before, before, 0, len)
  {
  }

  lemma EncodedAll(v: seq<Byte>, base: nat, data: seq<seq<Byte>>, before: seq<seq<Byte>>, out: seq<seq<Byte>>, len: nat)
    requires EncodedUpTo(v, base, data, before, out, |out|, len)
    ensures Encoded(v, base, data, out, len) && TailsKept(before, out, len)
  {
    assert out[..|out|] == out && before[..|before|] == before;
  }

  /** One kernel call encodes n more rows. */
  lemma EncodedMore(v: seq<Byte>, base: nat, data: seq<seq<Byte>>, before: seq<seq<Byte>>, out: seq<seq<Byte>>,
                    out': seq<seq<Byte>>,
                    done: nat, n: nat, len: nat)
    requires EncodedUpTo(v, base, data, before, out, done, len) && OnlyBlock(out, out', done, n)
    requires Encoded(v, base + done * |data| * 32, data, out'[done..done + n], len)
    requires TailsKept(out[done..done + n], out'[done..done + n], len)
    ensures EncodedUpTo(v, base, data, before, out', done + n, len)
  {
    hide Encoded, TailsKept;
    var b, o := before[..done + n], out'[..done + n];
    assert o[..done] == out[..done] && o[done..] == out'[done..done + n];
    assert b[..done] == before[..done] && b[done..] == out[done..done + n] by {
      assert before[done..][..n] == out[done..][..n];
    }
    assert out'[done + n..] == out[done + n..] == before[done + n..] by {
      assert before[done..][n..] == out[done..][n..];
    }
    EncodedBlocks(v, base, data, o, done, len);
    KeptBlocks(b, o, done, len);
  }

  lemma EncodedBlocks(v: seq<Byte>, base: nat, data: seq<seq<Byte>>, out: seq<seq<Byte>>, first: nat, len: nat)
    requires first <= |out|
    requires Encoded(v, base, data, out[..first], len)
    requires Encoded(v, base + first * |data| * 32, data, out[first..], len)
    ensures Encoded(v, base, data, out, len)
  {
    hide Coefs, IsDotProduct;
    forall l | 0 <= l < |out| ensures IsDotProduct(Coefs(v, base, |data|, l), data, out[l], len) {
      if l < first {
        assert out[..first][l] == out[l];
      } else {
        CoefsOfBlock(v, base, |data|, first, l - first);
        assert out[first..][l - first] == out[l];
      }
    }
  }

  lemma KeptBlocks(before: seq<seq<Byte>>, after: seq<seq<Byte>>, first: nat, len: nat)
    requires |before| == |after| && first <= |before|
    requires TailsKept(before[..first], after[..first], len) && TailsKept(before[first..], after[first..], len)
    ensures TailsKept(before, after, len)
  {
    forall l | 0 <= l < |after|
      ensures |before[l]| == |after[l]| && (len <= |after[l]| ==> before[l][len..] == after[l][len..])
    {
      if l < first {
        assert before[..first][l] == before[l] && after[..first][l] == after[l];
      } else {
        assert before[first..][l - first] == before[l] && after[first..][l - first] == after[l];
      }
    }
  }

  // ----- updating

  /** gf_vect_mad_sse, ..., gf_6vect_mad_sse on n rows from the given one on. */
  method VectMad(n: nat, len: nat, k: nat, vecI: nat, gTbls: array<Byte>, tables: nat, data: array<Byte>,
                 coding: seq<array<Byte>>, first: nat)
    requires 1 <= n <= 6 && first + n <= |coding| && vecI < k && len <= data.Length
    requires Buffers(coding, len) && Distinct(coding) && gTbls !in coding && data !in coding
    requires tables + 32 * k * n <= gTbls.Length
    modifies coding
    ensures data[..] == old(data[..]) && gTbls[..] == old(gTbls[..])
    ensures OnlyBlock(old(Contents(coding)), Contents(coding), first, n)
    ensures Updated(gTbls[..], tables, k, vecI, data[..], old(Contents(coding)[first..first + n]),
                    Contents(coding)[first..first + n], len)
  {
    hide Updated, OnlyBlock, Distinct, Buffers;
    BlockDisjoint(coding, first, n, len);
    BlockContents(coding, first, n);
    var block := coding[first..first + n];
    EcEncodeDataUpdateBase(len, k, n, vecI, gTbls, tables, data, block);
    BlockContents(coding, first, n);
    BlockChanged(old(Contents(coding)), Contents(coding), first, n);
  }

  /** ec_encode_data_update_sse computes what ec_encode_data_update_base computes. */
  method EcEncodeDataUpdateSse(len: nat, k: nat, rows: nat, vecI: nat, gTbls: array<Byte>, base: nat,
                               data: array<Byte>, coding: seq<array<Byte>>)
    requires vecI < k && len <= data.Length
    requires |coding| == rows && Buffers(coding, len) && Distinct(coding) && gTbls !in coding && data !in coding
    requires base + 32 * k * rows <= gTbls.Length
    modifies coding
    ensures Updated(gTbls[..], base, k, vecI, data[..], old(Contents(coding)), Contents(coding), len)
  {
    hide Updated, UpdatedUpTo, Distinct, Buffers;
    if len < 16 {
      EcEncodeDataUpdateBase(len, k, rows, vecI, gTbls, base, data, coding);
      return;
    }
    ghost var v, source, before := gTbls[..], data[..], Contents(coding);
    var done, left, tables := 0, rows, base;
    NothingUpdated(v, base, k, vecI, source, before, len);
    while left > 6
      invariant 0 <= left && 0 <= done && done + left == rows && tables == base + done * k * 32
      invariant data[..] == source && gTbls[..] == v
      invariant UpdatedUpTo(v, base, k, vecI, source, before, Contents(coding), done, len)
    {
      BlockFits(k, done, rows, base, gTbls.Length);
      BlockFits(k, 6, left, tables, gTbls.Length);
      ghost var out := Contents(coding);
      VectMad(6, len, k, vecI, gTbls, tables, data, coding, done);
      UpdatedMore(v, base, k, vecI, source, before, out, Contents(coding), done, 6, len);
      NextTables(done, k);
      tables := tables + 6 * k * 32;
      done := done + 6;
      left := left - 6;
    }
    if left > 0 {
      BlockFits(k, done, rows, base, gTbls.Length);
      BlockFits(k, left, left, tables, gTbls.Length);
      ghost var out := Contents(coding);
      VectMad(left, len, k, vecI, gTbls, tables, data, coding, done);
      UpdatedMore(v, base, k, vecI, source, before, out, Contents(coding), done, left, len);
      done := done + left;
    }
    UpdatedAll(v, base, k, vecI, source, before, Contents(coding), len);
  }

  ghost predicate UpdatedUpTo(v: seq<Byte>, base: nat, k: nat, vecI: nat, data: seq<Byte>, before: seq<seq<Byte>>,
                              out: seq<seq<Byte>>,
                              done: nat, len: nat)
    requires vecI < k
  {
    && |before| == |out| && done <= |out|
    && Updated(v, base, k, vecI, data, before[..done], out[..done], len)
    && out[done..] == before[done..]
  }

  lemma NothingUpdated(v: seq<Byte>, base: nat, k: nat, vecI: nat, data: seq<Byte>, before: seq<seq<Byte>>, len: nat)
    requires vecI < k
    ensures UpdatedUpTo(v, base, k, vecI, data, before, before, 0, len)
  {
  }

  lemma UpdatedAll(v: seq<Byte>, base: nat, k: nat, vecI: nat, data: seq<Byte>, before: seq<seq<Byte>>,
                   out: seq<seq<Byte>>, len: nat)
    requires vecI < k && UpdatedUpTo(v, base, k, vecI, data, before, out, |out|, len)
    ensures Updated(v, base, k, vecI, data, before, out, len)
  {
    assert out[..|out|] == out && before[..|before|] == before;
  }

  lemma UpdatedMore(v: seq<Byte>, base: nat, k: nat, vecI: nat, data: seq<Byte>, before: seq<seq<Byte>>,
                    out: seq<seq<Byte>>,
                    out': seq<seq<Byte>>, done: nat, n: nat, len: nat)
    requires vecI < k && UpdatedUpTo(v, base, k, vecI, data, before, out, done, len) && OnlyBlock(out, out', done, n)
    requires Updated(v, base + done * k * 32, k, vecI, data, out[done..done + n], out'[done..done + n], len)
    ensures UpdatedUpTo(v, base, k, vecI, data, before, out', done + n, len)
  {
    hide Updated;
    var b, o := before[..done + n], out'[..done + n];
    assert o[..done] == out[..done] && o[done..] == out'[done..done + n];
    assert b[..done] == before[..done] && b[done..] == out[done..done + n] by {
      assert before[done..][..n] == out[done..][..n];
    }
    assert out'[done + n..] == out[done + n..] == before[done + n..] by {
      assert before[done..][n..] == out[done..][n..];
    }
    UpdatedBlocks(v, base, k, vecI, data, b, o, done, len);
  }

  lemma UpdatedBlocks(v: seq<Byte>, base: nat, k: nat, vecI: nat, data: seq<Byte>, before: seq<seq<Byte>>,
                      out: seq<seq<Byte>>,
                      first: nat, len: nat)
    requires vecI < k && first <= |out| == |before|
    requires Updated(v, base, k, vecI, data, before[..first], out[..first], len)
    requires Updated(v, base + first * k * 32, k, vecI, data, before[first..], out[first..], len)
    ensures Updated(v, base, k, vecI, data, before, out, len)
  {
    hide Coefs, IsMultiplyAdd;
    forall l | 0 <= l < |out| ensures IsMultiplyAdd(Coefs(v, base, k, l)[vecI], data, before[l], out[l], len) {
      if l < first {
        assert out[..first][l] == out[l] && before[..first][l] == before[l];
      } else {
        CoefsOfBlock(v, base, k, first, l - first);
        assert out[first..][l - first] == out[l] && before[first..][l - first] == before[l];
      }
    }
  }
}
