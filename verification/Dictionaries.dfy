/** Preset dictionaries: how isal_deflate_hash fills the hash table, and when that is safe. */
module Dictionaries {
  import opened Bits
  import opened BitStream
  import opened Matcher
  import opened Tokenizer

  /** The bytes before pos in memory are those of dict. */
  ghost predicate Precedes(dict: seq<Octet>, memory: seq<Octet>, pos: nat) {
    |dict| <= pos <= |memory| && memory[pos - |dict|..pos] == dict
  }

  /** isal_deflate_hash_base: enters a dictionary that precedes pos into the hash table, as if it had
      been input. */
  method HashBase(cfg: Config, head: array<nat>, currentIndex: nat, dict: seq<Octet>, ghost memory: seq<Octet>,
                  ghost pos: nat)
    requires head.Length > cfg.hashMask && Precedes(dict, memory, pos)
    requires cfg.origin + currentIndex == pos
    modifies head
    ensures head[..] == RememberUpTo(cfg, memory, old(head[..]), pos - |dict|, pos - 3)
    ensures Entered(cfg, dict, old(head[..]), head[..], 0, |dict| - 3, |dict| - currentIndex)
  {
    hide HashAt, Low16, Entered;
    RememberUpToEnters(cfg, memory, head[..], pos - |dict|, pos - 3);
    EnteredInDictionary(cfg, dict, memory, pos, head[..],
                        RememberUpTo(cfg, memory, head[..], pos - |dict|, pos - 3));
    FirstIndex(cfg, pos, |dict|);
    var nextIn, endIn := 0, |dict| - SHORTEST_MATCH;
    var index := (currentIndex - |dict|) % 65536;
    ghost var all := RememberUpTo(cfg, memory, head[..], pos - |dict|, pos - 3);
    while nextIn <= endIn
      invariant 0 <= nextIn <= |dict| && index == Low16(cfg, pos - |dict| + nextIn)
      invariant RememberUpTo(cfg, memory, head[..], pos - |dict| + nextIn, pos - 3) == all
      decreases |dict| - nextIn
    {
      SameHash(cfg, dict, memory, pos, nextIn);
      var hash := HashAt(cfg, dict, nextIn);
      ghost var before := head[..];
      head[hash] := index;
      assert head[..] == before[hash := Low16(cfg, pos - |dict| + nextIn)];
      NextIndex(cfg, pos - |dict| + nextIn);
      index := (index + 1) % 65536;
      nextIn := nextIn + 1;
    }
  }

  /** What was entered of memory is what was entered of the dictionary. */
  lemma EnteredInDictionary(cfg: Config, dict: seq<Octet>, memory: seq<Octet>, pos: nat, before: seq<nat>,
                            after: seq<nat>)
    requires Precedes(dict, memory, pos) && Entered(cfg, memory, before, after, pos - |dict|, pos - 3, cfg.origin)
    ensures Entered(cfg, dict, before, after, 0, |dict| - 3, |dict| - (pos - cfg.origin))
  {
    hide HashAt;
    var offset := pos - |dict|;
    forall q: nat | q < |dict| - 3 ensures HashAt(cfg, dict, q) == HashAt(cfg, memory, offset + q) {
      SameHash(cfg, dict, memory, pos, q);
    }
    forall i | 0 <= i < |before| && NoneAt(cfg, dict, i, 0, |dict| - 3) ensures after[i] == before[i] {
      NoneElsewhere(cfg, dict, memory, pos, i, 0);
    }
    forall q: nat | q < |dict| - 3 && NoneAt(cfg, dict, HashAt(cfg, dict, q), q + 1, |dict| - 3)
      ensures after[HashAt(cfg, dict, q)] == (q - (|dict| - (pos - cfg.origin))) % 65536
    {
      NoneElsewhere(cfg, dict, memory, pos, HashAt(cfg, dict, q), q + 1);
    }
  }

  lemma NoneElsewhere(cfg: Config, dict: seq<Octet>, memory: seq<Octet>, pos: nat, i: int, p: nat)
    requires Precedes(dict, memory, pos) && NoneAt(cfg, dict, i, p, |dict| - 3)
    ensures NoneAt(cfg, memory, i, pos - |dict| + p, pos - 3)
  {
    hide HashAt;
    var offset := pos - |dict|;
    forall q: nat | offset + p <= q < pos - 3 ensures HashAt(cfg, memory, q) != i {
      SameHash(cfg, dict, memory, pos, q - offset);
    }
  }

  lemma FirstIndex(cfg: Config, pos: nat, dictLen: nat)
    requires dictLen <= pos
    ensures (pos - cfg.origin - dictLen) % 65536 == Low16(cfg, pos - dictLen)
  {
  }

  lemma NextIndex(cfg: Config, p: nat)
    ensures (Low16(cfg, p) + 1) % 65536 == Low16(cfg, p + 1)
  {
  }

  lemma SameHash(cfg: Config, dict: seq<Octet>, memory: seq<Octet>, pos: nat, i: nat)
    requires Precedes(dict, memory, pos) && i + 4 <= |dict|
    ensures HashAt(cfg, dict, i) == HashAt(cfg, memory, pos - |dict| + i)
  {
    hide And;
    SameLoad(dict, memory, pos - |dict|, i, 4);
  }

  lemma {:induction false} SameLoad(dict: seq<Octet>, memory: seq<Octet>, offset: nat, i: nat, n: nat)
    requires offset + |dict| <= |memory| && memory[offset..offset + |dict|] == dict && i + n <= |dict|
    ensures LoadLe(dict, i, n) == LoadLe(memory, offset + i, n)
    decreases n
  {
    if n > 0 {
      assert dict[i] == memory[offset..offset + |dict|][i];
      SameLoad(dict, memory, offset, i + 1, n - 1);
    }
  }

  // ----- the table after a dictionary

  /** memset(head, -1). */
  function Cleared(cfg: Config): (head: seq<nat>)
    ensures |head| == cfg.hashMask + 1
  {
    seq(cfg.hashMask + 1, _ => 65535)
  }

  /** The table when the last dictLen bytes before pos have been entered. */
  function DictionaryHead(cfg: Config, memory: seq<Octet>, pos: nat, dictLen: nat): (head: seq<nat>)
    requires dictLen <= pos <= |memory|
    ensures |head| == cfg.hashMask + 1
  {
    RememberUpTo(cfg, memory, Cleared(cfg), pos - dictLen, pos - 3)
  }

  /** It holds the last position for each hash, and -1 elsewhere. */
  lemma DictionaryEnters(cfg: Config, memory: seq<Octet>, pos: nat, dictLen: nat)
    requires dictLen <= pos <= |memory|
    ensures Entered(cfg, memory, seq(cfg.hashMask + 1, _ => 65535), DictionaryHead(cfg, memory, pos, dictLen),
                    pos - dictLen, pos - 3, cfg.origin)
  {
    hide Entered, RememberUpTo;
    RememberUpToEnters(cfg, memory, Cleared(cfg), pos - dictLen, pos - 3);
  }

  /** What a caller can see before the call: an entry that is left at -1 proposes the distance
      total_in + 1, in 16 bits.  That many bytes must be in memory, unless it is beyond the window. */
  predicate ClearedSafe(cfg: Config, pos: nat) {
    (pos - cfg.origin + 1) % 65536 <= pos || (pos - cfg.origin + 1) % 65536 > cfg.distMask
  }

  lemma ClearedEntry(cfg: Config, pos: nat)
    ensures Behind(cfg, pos, 65535) == (pos - cfg.origin + 1) % 65536
    ensures EntryOk(cfg, pos, 65535, cfg.distMask) == ClearedSafe(cfg, pos)
  {
  }

  /** An entry is as it was, or harmless. */
  lemma {:induction false} EntryKeptOrOk(cfg: Config, input: seq<Octet>, head: seq<nat>, p: nat, limit: int, pos: nat,
                                         i: nat)
    requires limit + 3 <= |input| && |head| > cfg.hashMask && limit <= pos + 1 && i < |head|
    ensures var h := RememberUpTo(cfg, input, head, p, limit)[i];
      h == head[i] || EntryOk(cfg, pos, h, cfg.distMask)
    decreases limit - p
  {
    hide HashAt, EntryOk, Low16;
    if p < limit {
      StoredOk(cfg, p, pos);
      EntryKeptOrOk(cfg, input, Remember(cfg, input, head, p), p + 1, limit, pos, i);
    }
  }

  lemma StoredOk(cfg: Config, p: nat, pos: nat)
    requires p <= pos
    ensures EntryOk(cfg, pos, Low16(cfg, p), cfg.distMask)
  {
    BehindStored(cfg, p, pos);
  }

  /** Exactly when no entry proposes a distance that reaches before the start of memory: for every
      total_in and every dictionary. */
  lemma DictionaryHashOk(cfg: Config, memory: seq<Octet>, pos: nat, dictLen: nat)
    requires dictLen <= pos <= |memory|
    ensures var head := DictionaryHead(cfg, memory, pos, dictLen);
      HashOk(cfg, head, pos) <==> ClearedSafe(cfg, pos) || 65535 !in head
  {
    hide EntryOk, ClearedSafe, RememberUpTo;
    var head := DictionaryHead(cfg, memory, pos, dictLen);
    ClearedEntry(cfg, pos);
    forall i | 0 <= i < |head|
      ensures head[i] == 65535 || EntryOk(cfg, pos, head[i], cfg.distMask)
    {
      EntryKeptOrOk(cfg, memory, Cleared(cfg), pos - dictLen, pos - 3, pos, i);
    }
  }

  /** A dictionary that is shorter than the table leaves entries at -1, so then the condition on
      total_in decides alone. */
  lemma ShortDictionaryHashOk(cfg: Config, memory: seq<Octet>, pos: nat, dictLen: nat)
    requires dictLen <= pos <= |memory| && dictLen <= cfg.hashMask + 3
    ensures HashOk(cfg, DictionaryHead(cfg, memory, pos, dictLen), pos) <==> ClearedSafe(cfg, pos)
  {
    hide ClearedSafe, HashOk, RememberUpTo;
    DictionaryHashOk(cfg, memory, pos, dictLen);
    AllCleared(cfg.hashMask + 1);
    assert multiset(Cleared(cfg))[65535] == cfg.hashMask + 1;
    GapsLeft(cfg, memory, Cleared(cfg), pos - dictLen, pos - 3);
  }

  lemma {:induction false} AllCleared(n: nat)
    ensures multiset(seq(n, _ => 65535 as nat))[65535] == n
  {
    if n > 0 {
      AllCleared(n - 1);
      assert seq(n, _ => 65535 as nat) == seq(n - 1, _ => 65535 as nat) + [65535];
    }
  }

  /** Each position that is entered fills at most one entry. */
  lemma {:induction false} GapsLeft(cfg: Config, input: seq<Octet>, head: seq<nat>, p: nat, limit: int)
    requires limit + 3 <= |input| && |head| > cfg.hashMask
    ensures multiset(RememberUpTo(cfg, input, head, p, limit))[65535]
      >= multiset(head)[65535] - (if p < limit then limit - p else 0)
    decreases limit - p
  {
    hide HashAt, Low16;
    if p < limit {
      GapsLeft(cfg, input, Remember(cfg, input, head, p), p + 1, limit);
    }
  }

  /** It can fail: when 1000 bytes have been consumed before a dictionary of four bytes, an entry that
      the dictionary does not fill proposes a match 1001 bytes back, where memory holds four. */
  lemma ClearedUnsafe() returns (cfg: Config, memory: seq<Octet>)
    ensures ValidConfig(cfg) && |memory| >= 8 && 4 - cfg.origin == 1000 && !ClearedSafe(cfg, 4)
    ensures !HashOk(cfg, DictionaryHead(cfg, memory, 4, 4), 4)
    ensures Proposed(cfg, memory, DictionaryHead(cfg, memory, 4, 4), 4) == 1001 <= cfg.distMask
  {
    cfg := Config(32767, 1, false, -996, x => x);
    memory := [0, 0, 0, 0, 1, 0, 0, 0];
    DictionaryHashOk(cfg, memory, 4, 4);
    assert LoadLe32(memory, 0) == 0 && LoadLe32(memory, 4) == 1 by {
      assert LoadLe(memory, 4, 4) == 1;
    }
    assert And(0, 1) == 0 && And(1, 1) == 1;
    var head := DictionaryHead(cfg, memory, 4, 4);
    assert head == Remember(cfg, memory, Cleared(cfg), 0);
    assert head[1] == 65535;
  }
}
