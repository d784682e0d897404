# Verified models of a storage library's core algorithms

This project models, in Dafny, the portable C code of the Intel Intelligent Storage Acceleration
Library (ISA-L), and proves what that code is relied on for. It has four parts.

**Reed-Solomon erasure coding over GF(2^8).** `GaloisField` defines the field by its polynomial,
`GaloisTables` the logarithm tables and the multiplication that uses them. `InvertMatrix` is the
in-place Gauss-Jordan inversion on flat arrays. `Generators` builds the two generator matrices, and
`CauchyCode` and `VandermondeCode` prove for exactly which sizes any k of their rows are
nonsingular, for all sizes; `PowerSystems` and `RankSymmetry` hold the linear algebra of powers that
the second needs. `MulTables`, `Encode` and `Dispatch` cover tables, encoding, updating and blocking by
rows; `Recovery` decodes. `Subsets` and `SubmatrixCheck` model the exhaustive search that the
documented limits come from, and prove that it decides recoverability.

**The level-0 deflate encoder.** `DeflateFormat` holds the parts of RFC 1951 that matter (symbols,
prefix codes, a bit-by-bit decoder); `BitStream` and `BitBuffer` the bit accumulator; `HuffmanTables`
and `Matcher` the look-ups and the word-at-a-time comparison; `Tokenizer` the hash table and one
token, and `Phases` the encoding loops, as functions; `Encoder` the resumable stream object, as a
class whose methods advance the input, overwrite hash table entries, and store into a bounded output
buffer. `Dictionaries` fills the hash table from a preset dictionary. `EqualRuns` says exactly what is made of a
run of equal bytes. `Compression` has whole runs:
input in pieces, any sizes of output buffers, and what a decoder makes of the result.
`IcfEncoder` and `IcfTables` are the record writer of the higher levels with its overlapping tables;
`Histogram` and `FlattenLl` the symbol counts that codes are made from.

**Cyclic redundancy checks.** `Crc` and `CrcFamilies` treat all widths and polynomials at once: the
table-driven loops, the bit-serial references, and the references whose accumulator is never masked,
all compute one definition. A table entry is defined as eight bit steps. The twelve algorithms are
constants: four pairs of 64 bits (ECMA-182, ISO, Jones, Rocksoft), T10-DIF of 16 bits, and iSCSI,
IEEE and its reflected form of 32 bits. `CrcDetection` proves that bursts are detected, and
`CrcResidues` what is left of a message followed by its own CRC. `CrcWords` evaluates registers as
64-bit words; with it `CrcChecks` and `CrcResidues` tie every algorithm to its published check value
or residue.

**Adler-32.** `Adler32` proves that the deferred reduction never overflows and when it agrees with
the definition.

`Arithmetic` and `Bits` hold the arithmetic of powers of two and of the bitwise operators of C on
unsigned words, which are modelled as natural numbers with explicit wrap-around; bytes of the field
are bit-vectors.

`dafny verify dfyconfig.toml` checks everything.

## What holds only under a condition

Four statements about the code hold under a condition that is proved to be exact.

- `gf_gen_rs_matrix` is documented to need no adjustment under any of five conditions
  (`include/erasure_code.h:1086-1093`). Two of them, k <= 3 and m - k <= 3, fail for large sizes, as 2
  has order 255: with at least two sources and two parity rows they also need k <= 255 and
  m - k <= 255. The other three are right, and beyond the five there is no safe size at all. (The same
  comment gives the entries as powers with exponents shifted by one; the model follows the code, whose
  first parity row is all ones.)
- `isal_deflate_set_dict` is documented for use after a flush (`include/igzip_lib.h:698-713`), when
  total_in is not zero. The entries that the dictionary does not fill are left at -1 and propose the
  distance total_in + 1 in 16 bits, although only the dictionary precedes the input in memory. This is
  harmless if and only if that distance is at most the dictionary's length or beyond the window, or
  the dictionary fills every entry.
- The rows of `gf_gen_cauchy1_matrix` are indexed by bytes, so any k of them are nonsingular if and
  only if m <= 256 or there is no parity.
- `adler32_base` reduces a given initial value even if there are no bytes, and the definition does
  not; they agree if and only if there are bytes or both halves are below 65521.

## Model

| member | source | states |
|---|---|---|
| GaloisField.EveryByteIsPower | erasure_code/gf_vect_dot_prod_1tbl.c:61-73 | 2 generates the field: every nonzero byte is 2^i for some i < 255 (with 2 of order exactly 255) |
| GaloisField.PowerInjective | erasure_code/gf_vect_dot_prod_1tbl.c:61-73 | equal powers of 2 have exponents equal modulo 255: 2 has order exactly 255 |
| GaloisTables.MkGfField | erasure_code/gf_vect_dot_prod_1tbl.c:61-73 | one pass fills both tables: entry n of the first is 2^n, entry b of the second is a logarithm of b, in spite of log[1] being written twice and log[0] standing for 0 |
| GaloisTables.LogInvertsPower | erasure_code/gf_vect_dot_prod_1tbl.c:61-73 | the logarithm of a nonzero byte is at least 1 and 2 raised to it is the byte |
| GaloisTables.GfMulIsPolyMul | erasure_code/ec_base.c:50-63 | multiplication by tables, with its zero cases and the subtraction of 255, is multiplication of polynomials modulo x^8+x^4+x^3+x^2+1 |
| GaloisTables.MulCommutes | erasure_code/ec_base.c:50-63 | field law: commutativity |
| GaloisTables.MulAssociates | erasure_code/ec_base.c:50-63 | field law: associativity |
| GaloisTables.MulDistributes | erasure_code/ec_base.c:50-63 | field law: multiplication distributes over exclusive or |
| GaloisTables.InvIsReciprocal | erasure_code/ec_base.c:65-76 | the inverse of a nonzero byte is its reciprocal; the inverse of 0 is 0 |
| InvertMatrix.GfInvertMatrix | erasure_code/ec_base.c:116-170 | in place, for every n and matrix: returns 0 exactly if the matrix is nonsingular (has no nonzero kernel vector), and then the input has become the identity and the output is a two-sided inverse; nothing beyond the n*n entries is touched |
| InvertMatrix.SwapRows | erasure_code/ec_base.c:141-149 | exchanges two rows of both matrices and nothing else |
| InvertMatrix.ScaleRow | erasure_code/ec_base.c:152-156 | multiplies one row of both matrices and nothing else |
| InvertMatrix.EliminateRow | erasure_code/ec_base.c:158-167 | adds a multiple of the pivot row to another row of both matrices and nothing else |
| InvertMatrix.NoPivotMeansSingular | erasure_code/ec_base.c:131-139 | if no row from the i-th on has an entry in column i, the original matrix has a nonzero kernel vector, which is exhibited |
| InvertMatrix.SolvedSystemIsInverse | erasure_code/ec_base.c:116-170 | when the solutions of in*x = out*y have been kept and in is the identity, out is a two-sided inverse of the original |
| Generators.GfGenRsMatrix | erasure_code/ec_base.c:78-96 | the identity on top, then in parity row n and column j the entry 2^(n*j) |
| Generators.GfGenCauchy1Matrix | erasure_code/ec_base.c:98-114 | the identity on top, then the reciprocals of i xor j, both truncated to a byte when they are passed on |
| Generators.CauchyEntry | erasure_code/ec_base.c:98-114 | below the identity, with x and y the low bytes of row and column: the entry times (x xor y) is 1 in the field, and where x = y the entry is 0 |
| Generators.IdentityEntry | erasure_code/ec_base.c:78-114 | above, the entries of both matrices are 1 on the diagonal and 0 elsewhere |
| Generators.RsParityEntry | erasure_code/ec_base.c:78-96 | the first parity row and first column of the other are ones; each entry is the one before it times the second of its row, and that doubles from row to row |
| CauchyCode.CauchyRecoversAnyLoss | erasure_code/ec_base.c:98-114 | any k of the m rows are nonsingular if and only if m <= 256 or m = k |
| CauchyCode.CauchySingular | erasure_code/ec_base.c:98-114 | beyond 256 rows, k rows that are singular |
| VandermondeCode.RsRecoversExactly | include/erasure_code.h:1080-1093 | for every k and m, with p = m - k: any k of the m rows are nonsingular if and only if k <= 1, or p <= 1, or k <= 3 and p <= 255, or p <= 3 and k <= 255, or k = 4 and p <= 21, or p = 4 and k <= 21, or k = p = 5 |
| VandermondeCode.DocumentedSizes | include/erasure_code.h:1086-1093 | the five documented conditions are complete, and each is right exactly when there is at most one source or parity row or neither k nor p exceeds 255 |
| VandermondeCode.RowsAreSystem | erasure_code/ec_base.c:78-96 | a choice of k rows is nonsingular if and only if its parity rows have only the zero solution on the columns that no identity row fixes |
| VandermondeCode.UnsafeSystem | include/erasure_code.h:1083-1093 | for every other size, as many parity rows as columns that have a solution other than zero: columns 0 and 255, or rows 0, 1, 3 with columns 0, 10, 21, or rows 0, 1, 4 with columns 0, 3, 5, or the transpose of one of these |
| VandermondeCode.CoveredSystem | include/erasure_code.h:1083-1093 | for up to three parity rows with 255 columns, four with 21 and five with five, every square submatrix has only the zero solution |
| PowerSystems.Annihilated | erasure_code/ec_base.c:78-96 | the rows, weighted with the coefficients of the product of X + 2^c over the columns c, send every vector on those columns to zero |
| RankSymmetry.Transposed | erasure_code/ec_base.c:78-96 | if a square submatrix of powers has only the zero solution, so has its transpose: sources and parity rows can be exchanged |
| MulTables.TableMultiplies | erasure_code/ec_base.c:172-182 | two look-ups by nibble in a 32-byte table multiply any byte by the constant |
| MulTables.GfVectMulInitBytes | erasure_code/ec_base.c:176-277 | the byte path builds that table |
| MulTables.GfVectMulInitBase | erasure_code/ec_base.c:175-227 | the path by 64-bit words builds the same table |
| MulTables.EcInitTablesBase | erasure_code/ec_base.c:37-48 | one table after another for all coefficients, row by row |
| Encode.GfVectDotProdBase | erasure_code/ec_base.c:282-294 | each output byte is the dot product of the coefficients with that byte of every source; nothing beyond len is touched |
| Encode.EcEncodeDataBase | erasure_code/ec_base.c:309-325 | all outputs are the matrix product of coefficients and sources |
| Encode.GfVectMadBase | erasure_code/ec_base.c:296-307 | adds the contribution of one source to an output |
| Encode.EcEncodeDataUpdateBase | erasure_code/ec_base.c:327-342 | adds the contribution of one source to every output |
| Encode.EncodeByUpdates | erasure_code/erasure_code_update_perf.c:108-119 | updating zeroed outputs once for each source, in any order, gives what encoding gives |
| Encode.DeltaUpdate | erasure_code/ec_base.c:327-342 | updating with the exclusive or of old and new data turns the parity of the old data into that of the new |
| Dispatch.EcEncodeDataSse | erasure_code/ec_highlevel_func.c:159-194 | blocks of six rows and a remainder encode every row exactly once, as the base function does |
| Dispatch.EcEncodeDataUpdateSse | erasure_code/ec_highlevel_func.c:585-622 | the same for updates, whose loop leaves up to six rows to the remainder |
| Recovery.ChooseSurvivors | erasure_code/erasure_code_perf.c:142-149 | the first k surviving buffers, in order, and the matrix of their rows |
| Recovery.PrepareDecode | erasure_code/erasure_code_perf.c:142-163 | if the survivors' matrix inverts, the tables that rebuild every lost buffer, source or parity; otherwise the error return |
| Recovery.EcDecode | erasure_code/erasure_code_perf.c:134-168 | each rebuilt buffer equals the lost one byte for byte, if and only if the survivors' rows are nonsingular the return is 0 |
| Recovery.DecodeTest | erasure_code/erasure_code_update_perf.c:121-155 | the same by repeated update |
| Recovery.RecoveredByte | erasure_code/erasure_code_perf.c:154-160 | the row d*a of a lost buffer, applied to the survivors' bytes, gives the lost byte |
| Recovery.EncodeAndRecover | erasure_code/erasure_code_perf.c:126-168 | generate, encode, lose and decode, for both generators and all sizes: if k buffers survive, everything lost is restored if and only if the rows of the first k survivors are nonsingular, and nothing is written otherwise; for the recoverable sizes it always is |
| Recovery.GeneratorRecovers | include/erasure_code.h:1080-1093 | the recoverable sizes are exactly those for which any k rows of the generated matrix are nonsingular |
| Subsets.NextSubset | erasure_code/gen_rs_matrix_limits.c:42-56 | the next larger number with as many bits in 64-bit arithmetic; 1 and the first subset again exactly when there is none below 2^n |
| Subsets.GosperStep | erasure_code/gen_rs_matrix_limits.c:42-56 | the step goes to the least larger number with the same number of bits |
| Subsets.EverySubsetOnce | erasure_code/gen_rs_matrix_limits.c:42-56 | starting from 2^s - 1, repeated steps visit every s-element subset of n <= 63 elements exactly once, in increasing order |
| SubmatrixCheck.GenSubMatrix | erasure_code/gen_rs_matrix_limits.c:21-40 | the submatrix of the selected rows and columns |
| SubmatrixCheck.AreSubmatricesSingular | erasure_code/gen_rs_matrix_limits.c:58-83 | returns 0 if and only if no square submatrix is singular |
| SubmatrixCheck.SubmatricesDecideRecovery | erasure_code/gen_rs_matrix_limits.c:58-83 | no square submatrix of the parity rows is singular if and only if any k rows of the whole generator are nonsingular: the search decides recoverability |
| BitBuffer.FieldAppended | igzip/bitbuf2.h:117-122 | or-ing a shifted code into the accumulator appends its bits, least significant first |
| BitBuffer.BitsSpilled | igzip/bitbuf2.h:83-92 | storing the word and dropping its complete bytes keeps the bits in order |
| BitBuffer.BitBuf2.SetBuf | igzip/bitbuf2.h:51-57 | directs output to a buffer and keeps the pending bits |
| BitBuffer.BitBuf2.FlushBits | igzip/bitbuf2.h:83-92 | the stream of bits is unchanged, less than a byte stays pending, and only the eight bytes at the output position are written |
| BitBuffer.BitBuf2.Flush | igzip/bitbuf2.h:94-106 | pads with zero bits to a whole number of bytes |
| BitBuffer.BitBuf2.CheckSpace | igzip/bitbuf2.h:108-115 | makes room for up to 56 more bits without changing the stream, writing only the eight bytes at the output position |
| BitBuffer.BitBuf2.WriteBitsUnsafe | igzip/bitbuf2.h:117-122 | appends exactly the bits of the code, never holding more than 63 |
| BitBuffer.BitBuf2.WriteBits | igzip/bitbuf2.h:124-130 | appends exactly the bits of the code and leaves at most 7 pending; the store stays within the eight bytes at the output position, which are in the buffer whenever it was not full |
| BitBuffer.BitBuf2.WriteBitsFlush | igzip/bitbuf2.h:132-138 | appends the code and pads to a byte, writing only the eight bytes at the output position |
| DeflateFormat.DecodeTokenBack | igzip/igzip_base.c:88-94 | if no used code is a prefix of another, a token whose symbols have codes decodes to itself, whatever bits follow (sections 3.2.3 and 3.2.5 of RFC 1951); symbols that are not used need no code |
| DeflateFormat.DecodeBlock | igzip/igzip_base.c:203-212 | the bits of tokens and an end-of-block decode to what the tokens stand for, and leave what follows |
| DeflateFormat.CopyReproduces | igzip/igzip_base.c:67-73 | copying byte by byte from a distance at which the data repeats reproduces it, overlapping or not |
| DeflateFormat.LengthSymbolRange | igzip/generate_custom_hufftables.c:261-281 | the formula for length symbols agrees with the table of section 3.2.5 of RFC 1951 |
| DeflateFormat.LengthSymbolIs | igzip/generate_custom_hufftables.c:261-281 | a length has a symbol if and only if it lies in that symbol's range |
| DeflateFormat.DistSymbolRange | igzip/huffman.h:158-172 | the symbol made from the leading bits of a distance agrees with the table of section 3.2.5 of RFC 1951 |
| HuffmanTables.Bsr | igzip/huffman.h:53-73 | the number of significant bits |
| HuffmanTables.LitCodeSpells | igzip/huffman.h:149-156 | the look-up gives the literal's code, if it has one |
| HuffmanTables.LenCodeSpells | igzip/huffman.h:137-147 | the look-up gives the length's code followed by its extra bits |
| HuffmanTables.ComputeDistCodeSpells | igzip/huffman.h:95-120 | the computed entry is the distance symbol's code followed by its extra bits, for every distance beyond the table |
| HuffmanTables.DistCodeSpells | igzip/huffman.h:122-135 | so does the look-up, for every distance and both table sizes |
| HuffmanTables.MatchCodeSpells | igzip/igzip_base.c:88-94 | length and distance codes joined in a 64-bit word spell the match, in at most 48 bits |
| HuffmanTables.TablesExist | igzip/huffman.h:122-156 | every prefix-free code of words of at most 15 bits, with or without unused symbols, has tables, so that the assumption on tables can be met |
| HuffmanTables.ShortCodesExist | igzip/huffman.h:122-156 | there are such codes |
| Matcher.TzByteCnt | igzip/huffman.h:75-93 | the number of low zero bytes of a nonzero word |
| Matcher.Compare258 | igzip/huffman.h:253-307 | the length of the longest common stretch, up to the limit and 258 |
| Matcher.Compare | igzip/huffman.h:315-366 | the same without the limit of 258 |
| Matcher.WordsDiffer | igzip/huffman.h:265-272 | the first nonzero byte of the exclusive or of two loads is where the bytes first differ |
| Tokenizer.HashEntryIsPosition | igzip/igzip_base.c:62-65 | every hash table entry is the low 16 bits of a position in memory not after the current one, or else lies beyond the window |
| Tokenizer.ProposedWithinInput | igzip/igzip_base.c:62-71 | a 16-bit difference within the window never reaches before the start of memory, even after positions pass 65536 |
| Tokenizer.NextStepKeeps | igzip/igzip_base.c:62-86 | what one turn of a loop writes into the hash table keeps that true, for every window |
| Tokenizer.ResetOk | igzip/igzip.c:879-931 | after reset_match_history no entry proposes a distance, whatever total_in is |
| Tokenizer.NextStepSound | igzip/igzip_base.c:62-104 | the token of one turn stands for exactly the input that is stepped over |
| Tokenizer.NextStepTakes | igzip/igzip_base.c:62-104 | with d the 16-bit difference to the table's entry: if 1 <= d <= dist_mask and the input repeats at d for some n from 4 to the limit, the token is a match at d of at least n bytes; if there is no such n, it is the literal |
| Tokenizer.NextStepEnters | igzip/igzip_base.c:64-86 | which positions one turn enters: its own, and after a match those behind it, up to the third with LIMIT_HASH_UPDATE, else up to the end of the match less what finishing leaves out, and never the last three of the input |
| Tokenizer.RememberUpToEnters | igzip/igzip_base.c:80-86 | after positions are entered, each hash that occurs holds the low 16 bits of the last position with it, and every other entry is as before |
| Tokenizer.LastEntered | igzip/igzip_base.c:80-86 | every position entered has a last one with its hash, and the entry is that one's |
| Tokenizer.HashAtIs | igzip/igzip_base.c:62-63 | on a mask of k bits the index is the hash of the four bytes, first lowest, cut to k bits |
| Phases.TurnTakes | igzip/igzip_base.c:55-185 | the same for a turn of either loop, with 258 bytes allowed in the body, where more than 288 are left, and the rest of the input in finishing; fewer than four bytes become literals |
| EqualRuns.EqualBytes | igzip/igzip_base.c:55-190 | a block of equal bytes after a reset, for every hash function and window: one literal, then matches of 258 bytes, the first at distance 1 and the later ones at the distance to the last position entered (after one more literal, where that is beyond the window), then the rest |
| EqualRuns.BlockMatches | igzip/igzip_base.c:55-190 | so if the window has room for those distances, n bytes begin with n / 258 matches of 258 bytes |
| Phases.TurnSound | igzip/igzip_base.c:62-104 | a turn of any of the three loops makes a token that stands for exactly the input stepped over |
| Phases.ReachedBlock | igzip/igzip_base.c:28-217 | wherever the body is interrupted, the tokens made and those still to be made are together the same |
| Phases.ReachedKeeps | igzip/igzip_base.c:62-86 | after any number of turns the table still proposes only what is in memory |
| Phases.ReachesPrefix | igzip/igzip_base.c:55-107 | the body does not look at the end of the input: what it made stays right when more input follows |
| Phases.TokensCoded | igzip/igzip_base.c:62-104 | the tokens use only the literals of the input, lengths from 4 on and distances within the window, so codes for those suffice |
| Encoder.DeflateStream.constructor | igzip/igzip_base.c:28-53 | a stream after any number of bytes consumed, with the hash table reset, in a state that all calls keep |
| Encoder.DeflateStream.EndHeader | igzip/igzip.c:1973-1986 | with eight bytes of room, a block begins with the last bits of its header pending; otherwise nothing changes |
| Encoder.DeflateStream.LookUp | igzip/igzip_base.c:62-65 | the proposed distance, and the table with the position entered |
| Encoder.DeflateStream.UpdateHash | igzip/igzip_base.c:80-86 | each hash that occurs among the positions behind a match holds the last of them, and all other entries are unchanged |
| Encoder.DeflateStream.FindToken | igzip/igzip_base.c:62-86 | the match is taken exactly when four bytes agree at the proposed distance and the window and limit allow it, and is then as long as possible, otherwise the literal; and the table is that of one turn |
| Encoder.DeflateStream.PutMatch | igzip/igzip_base.c:88-94 | appends exactly the bits of a match whose symbols have codes |
| Encoder.DeflateStream.PutLiteral | igzip/igzip_base.c:102-103 | appends exactly the bits of a literal |
| Encoder.DeflateStream.EncodeOne | igzip/igzip_base.c:62-104 | one turn of either loop, given the output is not full: output, table and position as specified, and writes only where the caller provided room |
| Encoder.DeflateStream.UpdateState | igzip/igzip_base.c:9-26 | what was written is delivered, next_in - total_in and the end of input and output stay where they are, and the state between calls is valid again |
| Encoder.DeflateStream.Body | igzip/igzip_base.c:28-114 | the tokens and the hash table are those of some turns of the body's loop from where it was called, wherever the output filled up; the state machine moves on exactly when less than a look-ahead is left |
| Encoder.DeflateStream.Finish | igzip/igzip_base.c:116-217 | the same for finishing: ends the block exactly when everything is encoded, otherwise the output is full and at least one token was written if there was room |
| Encoder.StepCovers | igzip/igzip_base.c:62-104 | one more token covers the input up to the next position |
| Compression.OutputDecodes | igzip/igzip_base.c:28-217 | in every state between calls, after the header bits that were pending at the start of the block, the bytes delivered and the bits pending decode to exactly the input consumed, and to an end of block once finishing is complete |
| Dictionaries.HashBase | igzip/igzip_base.c:219-236 | each hash that occurs in the dictionary, up to its last four bytes, holds the last position with it as an index from current_index - dict_len on that wraps in 16 bits; all other entries are unchanged |
| Dictionaries.DictionaryEnters | igzip/igzip.c:1222-1254 | after a table is filled with -1 and the dictionary entered, it holds the last position for each hash, and -1 elsewhere |
| Dictionaries.DictionaryHashOk | igzip/igzip.c:1222-1254 | for every total_in and dictionary: the table filled with -1 and the dictionary proposes only what is in memory if and only if (total_in + 1) mod 65536 is at most the number of bytes in memory or beyond the window, or no entry is left at -1 |
| Dictionaries.ShortDictionaryHashOk | igzip/igzip.c:1222-1254 | a dictionary shorter than the table always leaves an entry at -1, so then total_in alone decides |
| Dictionaries.ClearedUnsafe | include/igzip_lib.h:698-713 | an input for which it fails: 1000 bytes consumed before, a dictionary of four bytes, and a proposed distance of 1001 |
| Compression.UseDictionary | igzip/igzip.c:1222-1254 | fills the table with -1 and hashes a dictionary that precedes the input; the state is valid if and only if the condition of Dictionaries.DictionaryHashOk holds |
| Compression.FirstHeadIs | igzip/igzip.c:879-931 | the table that a stream starts with: the reset one, or the dictionary's last positions |
| Compression.Pass | igzip/igzip.c:457-461 | body, then finish, as the state says: the block's tokens are kept and each pass with eight bytes of room makes progress |
| Compression.MoreInput | igzip/igzip_base.c:39-53 | input may be added between calls, and the tokens made so far are those that the body makes of the longer input |
| Compression.FeedAll | igzip/igzip.c:457-461 | calls without a flush, each with more input and any output buffer, stay within the tokens of the whole block |
| Compression.Run | igzip/igzip.c:440-475 | passes with any sizes of output buffers make the same tokens, and sizes of at least eight bytes lead to the end |
| Compression.Compress | igzip/igzip_base.c:28-217 | for any data in any pieces, dictionary, header bits, output sizes and codes for the tokens: what comes out after the header decodes to the data; its bits depend neither on the pieces nor on the sizes; enough buffers of at least eight bytes complete it |
| Compression.EqualStream | igzip/igzip_base.c:28-217 | the tokens of a stream of equal bytes, for every length and hash function: one literal, then matches of 258 bytes while at least 258 are left, with a literal in between where the distance is beyond the window |
| Compression.StreamCoded | igzip/igzip_base.c:62-104 | codes for the literals of the data, the lengths from 4 on and the distances within the window are enough for that |
| IcfEncoder.TablesOverlap | igzip/huff_codes.h:156-168 | the literal x has the same entry as second symbol at LIT_START + x and in the literal table, as the tables share memory |
| IcfEncoder.ShortCodeReadsTheSame | igzip/huff_codes.h:105-130 | a code of at most 16 bits reads the same through both layouts of an entry, with no extra bits |
| IcfEncoder.LiteralSpells | igzip/encode_df.c:24-31 | so a literal has the same code in either place of a record |
| IcfEncoder.GetDistIcfCodeIs | igzip/huffman.h:174-185 | the distance symbol and the extra bits of section 3.2.5 of RFC 1951 |
| IcfEncoder.MatchRecord | igzip/igzip_icf_base.c:103-108 | the record made from a match stands for that match |
| IcfEncoder.RecordSpells | igzip/encode_df.c:24-31 | the three fields written for a record are the codes of what it stands for, in at most 48 bits, if the distance symbol of a match has a code; other symbols may be unused |
| IcfEncoder.EncodeDeflateIcf | igzip/encode_df.c:16-38 | appends exactly the codes of the records before the returned position, and stops only at the end or when the output is full |
| IcfTables.ExpandHufftablesIcf | igzip/huff_codes.c:1529-1559 | replaces the codes of length symbols by one entry for each length, in place, giving the tables that the record encoder needs, with or without unused symbols |
| IcfTables.NextExpanded | igzip/huff_codes.c:1543-1553 | the entry written at each step spells its length |
| Crc.ReflLinear | crc/crc64_ref.h:54-59 | a reflected bit step is linear over exclusive or |
| Crc.NormIsReversedRefl | crc/crc64_ref.h:54-75 | a normal bit step is a reflected one seen from the other end |
| Crc.ReflTableStep | crc/crc64_base.c:568-579 | one table look-up does eight reflected bit steps |
| Crc.NormTableStep | crc/crc64_base.c:581-592 | one table look-up does eight normal bit steps |
| Crc.CrcChains | crc/crc64_base.c:568-670 | a call seeded with the result of another continues it over the concatenation |
| CrcFamilies.AllValid | crc/crc64_ref.h:46-183 | all twelve polynomials fit their widths and have the coefficient that makes a step a bijection |
| CrcFamilies.TableRefl | crc/crc64_base.c:568-579 | the reflected table-driven loop (also crc/crc_base.c:205-219 and 234-249) computes the bit-serial definition, for every seed and buffer |
| CrcFamilies.TableNorm | crc/crc64_base.c:581-592 | the normal table-driven loop (also crc/crc_base.c:179-189 and 221-232) computes the bit-serial definition |
| CrcFamilies.TableNormCopy | crc/crc_base.c:191-203 | the same while copying; source and destination may be the same |
| CrcFamilies.SerialRefl | crc/crc64_ref.h:46-61 | the reflected bit-serial loop computes the definition (also crc/crc_ref.h:46-61 and 124-139) |
| CrcFamilies.SerialNorm | crc/crc64_ref.h:63-78 | the normal bit-serial loop computes the definition |
| CrcFamilies.SerialUnmasked | crc/crc_ref.h:63-119 | so do the references whose 64-bit accumulator is never masked |
| CrcFamilies.UnmaskedStep | crc/crc_ref.h:74-77 | the low bits of the unmasked accumulator step as the register does |
| CrcFamilies.ReflectedIsReversedNormal | crc/crc64_ref.h:46-183 | a reflected CRC is the bit-reversal of the normal one on the reversed seed and bytes |
| CrcWords.MirrorPairs | crc/crc64_ref.h:46-183 | the polynomials of the four 64-bit pairs, and of crc32_gzip_refl and crc32_ieee, are bit-reversals of one another |
| CrcChecks.CheckValues | crc/crc64_base.c:568-670 | the published check values of "123456789" for the reflected ones (the iSCSI and gzip ones: crc/crc_base.c:205-249) |
| CrcChecks.T10DifCheck | crc/crc_base.c:179-189 | the published check value of CRC-16/T10-DIF |
| CrcChecks.IeeeCheck | crc/crc_base.c:221-232 | the published check value of CRC-32/BZIP2, which is crc32_ieee |
| CrcChecks.EcmaNormCheck | crc/crc64_base.c:581-592 | the published check value of CRC-64/WE |
| CrcResidues.WholeRegister | crc/crc64_ref.h:46-61 | bytes that fill the register can be added to it at once and then stepped over |
| CrcResidues.Residue | crc/crc64_ref.h:46-183 | for every algorithm, seed and message: the message followed by the complement of its register leaves a constant |
| CrcResidues.NothingLeft | crc/crc64_ref.h:46-183 | followed by the register itself it leaves 0 |
| CrcResidues.Residues32 | crc/crc_base.c:205-249 | the constants of the standards for crc32_iscsi, crc32_gzip_refl and crc32_ieee, for every seed and message |
| CrcResidues.Residues64 | crc/crc64_base.c:568-670 | the constants of the four reflected 64-bit CRCs, for every seed and message |
| CrcResidues.NormalResidues64 | crc/crc64_base.c:581-670 | those of the four normal ones, with the bytes most significant first |
| CrcResidues.T10DifResidue | crc/crc_base.c:179-189 | a buffer followed by its own T10-DIF checks to 0 |
| CrcResidues.TurnedLittleEndian | crc/crc64_ref.h:46-78 | reversing the bits of little-endian bytes makes big-endian ones of the reversed word |
| CrcDetection.FeedIsSteps | crc/crc64_base.c:568-670 | bits that come later can as well be added at once, further up the register |
| CrcDetection.BurstDetected | crc/crc64_base.c:568-670 | two buffers of equal length that differ only within a window of at most as many bits as the CRC has different CRCs under any seed |
| Adler32.ChunkFits | igzip/adler32_base.c:42-47 | the sums over a chunk of 2^28 bytes do not overflow 64 bits |
| Adler32.SumChunk | igzip/adler32_base.c:44-47 | the inner loop in 64-bit arithmetic computes the sums |
| Adler32.Adler32Base | igzip/adler32_base.c:33-64 | for every initial value and length, the two sums in closed form, reduced by 65521 |
| Adler32.ModulusIsLargestPrime | igzip/igzip_checksums.h:7 | the modulus has no divisor from 2 to 255, and every number from it up to 65535 has one: it is the largest prime below 65536, as section 2.2 of RFC 1950 asks |
| Adler32.AdlerRef | igzip/checksum_test_ref.h:62-74 | the definition of section 2.2 of RFC 1950, with a reduction at every byte; for a buffer that is not empty, the same closed form |
| Adler32.DeferredIsAdler | igzip/adler32_base.c:33-64 | the two agree if and only if the length is positive or both halves of the initial value are below 65521 |
| Adler32.AdlerComposes | igzip/adler32_base.c:33-64 | the checksum of a concatenation is that of the second part started with that of the first |
| Adler32.AdlerInClosedForm | igzip/adler32_base.c:33-64 | the two sums in closed form, as a total and a weighted total reduced by 65521 |
| FlattenLl.Flatten | igzip/flatten_ll.c:7-42 | in place, leaves at every symbol 257 to 285 the sum, in 32 bits, of the original counts of exactly the lengths with that symbol, and nothing else changed |
| FlattenLl.SymbolTotalIs | igzip/flatten_ll.c:13-41 | the lengths of a symbol are consecutive, so the total is a sum of consecutive counts |
| FlattenLl.TotalConserved | igzip/flatten_ll.c:7-42 | no count is lost and none counted twice |
| FlattenLl.FlattenedTotal | igzip/flatten_ll.c:7-42 | the flattened histogram has the same total in 32 bits |
| Histogram.ConvertDistIs | igzip/generate_custom_hufftables.c:246-256 | the formula for distance symbols gives the symbol of section 3.2.5 of RFC 1951 |
| Histogram.HuffHistogram.FindToken | igzip/generate_custom_hufftables.c:317-339 | the match is taken exactly when four bytes agree at the proposed distance within the window, and is then as long as possible; the asserted match start is always met |
| Histogram.DictHeadEnters | igzip/generate_custom_hufftables.c:283-312 | the table after the dictionary: the last position for each hash, of all but its last four bytes, and 0 elsewhere |
| Histogram.HuffHistogram.UpdateHistogramDict | igzip/generate_custom_hufftables.c:283-348 | counts exactly the symbols of a tokenization of the stream, and one end of block; does nothing for a length that is not positive |
| Histogram.StreamTokensExpand | igzip/generate_custom_hufftables.c:283-348 | those tokens, expanded after the dictionary, give the stream |
| Histogram.CountAllCost | igzip/generate_custom_hufftables.c:333-346 | weighting the counts with code lengths and extra bits gives the exact size of the encoded tokens, whatever codes are chosen afterwards |
| Histogram.HistogramTellsSize | igzip/generate_custom_hufftables.c:283-348 | so a histogram that starts empty tells the exact size of the block |

## Left out

- SIMD and assembly kernels: they are given the contract of the base functions, and only the dispatch to them is modelled, for the SSE variant; the AVX, AVX2 and AVX-512 dispatchers differ in block sizes.
- gf_vect_mul_base, gf_vect_dot_prod_ref and gf_vect_dot_prod_mult: variants of the modelled loops that would only add easy members.
- The literal tables for GF(2^8) and the CRCs, and GF_LARGE_TABLES and GFNI tables: finite constants; the model uses the generators that define them.
- The limits MMAX and KMAX of the performance programs, their allocation, timing and printing; running the search of gen_rs_matrix_limits.c: the limits it looks for are proved directly.
- Recovery.EncodeAndRecover: the searches of the performance programs for a generator and a loss pattern; both are parameters.
- compute_hash: an arbitrary function, as no result depends on which it is.
- Construction of Huffman codes and of block headers, inflate, gzip and zlib wrappers, match finders of the higher levels: the codes are a parameter, assumed prefix-free among the symbols that are used and with words of at most 15 bits, for which tables are shown to exist.
- The decoder in DeflateFormat is a reference for one block of given codes; inflate is not part of this model.
- Lengths of 2^32 bytes and more of input in one stream: total_in is unbounded, as only its low 16 bits are used; total_out wraps as in the code. The 64-bit counters of the histogram and the loop counters of the CRCs are unbounded.
- The input of a stream is one sequence of all bytes provided so far: that a caller moves unread input elsewhere between calls is not modelled.
- The cut of a dictionary to its last 32768 bytes, and the copying of dictionary and input to the internal buffer: the dictionary is what precedes the input.
- IGZIP_NO_HIST and the other values of has_hist: only whether there is history.
- The switch over max_length % 8 at the end of compare258 and compare is a loop over the same comparisons; bsr and tzbytecnt are the portable loops of several equivalent variants.
- Compression.Run: the states between the body and the end of one block; the bytes of headers, sync flush and trailers are written by code outside the model, and only the last bits of a header that stay pending are in it.
- The temporary output buffer of isal_deflate_int for rooms of less than eight bytes.
- m_bit_count & ~7 is written as 8 * (m_bit_count / 8), and similar masks as remainders.
- crc16_t10dif_copy_ref: the copying reference adds nothing to the one without.
