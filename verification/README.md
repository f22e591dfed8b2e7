# Verified models of ciphers, parsers and matchers

This project models, in Dafny, the algorithms of a collection of C programs and proves what they
promise. Four independent parts:

* **Block-cipher modes over SEED and AES.** The table-driven GHASH, GCM, CCM, CBC and CTR over the
  SEED block cipher, and the table-driven AES-128 with its in-place CBC. The modes are proved
  against the standards: NIST SP 800-38A, 38C and 38D, FIPS 197, and the padding of RFC 5652. SEED is
  compared with RFC 4269 for tables made from any two S-boxes (`SeedStandard`); AES's tables are given by the
  formulas that define them from any invertible S-box.
* **cJSON.** The recursive-descent parser, the two-pass printer and the in-place minifier. The parser
  is specified by functions that say what stands at a position of a text (`JsonGrammar`); which texts
  these accept, and where they refuse the others, is said by a grammar of its own, of which RFC 8259
  is a part (`JsonSyntax`, `JsonLenient`, `JsonErrors`); the printer is specified by the text of a
  tree in its two layouts (`JsonTree`, `JsonLayout`).
* **Wildcard matching.** A greedy matcher that remembers only the last star and a memoised matcher,
  both compared with one declarative relation (`Wildcard.Matches`) and with the places of the pattern's
  characters in the text (`Places`).
* **IPv6 text.** The verifier, the compressor of the rightmost zero run and the expanders.

Code that works step by step is modelled as methods with the same loops over arrays and fields; each
is proved against a function or predicate on values, and the lemmas are about those. Where the code
meets its documentation or standard only under a condition, the condition is proved exact:

* GCM's length block is right below 2^29 bytes only (`Gcm.CodeLensExact`); its counter macro carries
  past 32 bits, and for texts of whole blocks the output leaves the standard exactly when the low
  counter word wraps (`BlockModes.GctrExact`, `Gcm.CodeIsGcmExact`).
* CCM's associated data is encoded as the standard says exactly when it is shorter than 0xFF00 bytes
  (`Ccm.CodeBlocksExact`).
* GCM decryption over its own input and CCM encryption over its own payload authenticate the bytes
  they have just written; when such a call still agrees with the other side is said by
  `Gcm.InPlaceOpens` and `Ccm.InPlaceOpens`.
* The CTR counter is wrong when bytes 2 to 15 overflow and byte 1 does not (`SeedCtr.CtrNextExact`,
  and `SeedCtr.CtrExact` for any number of steps), and the text with it (`SeedCtr.CtrModeBlocks`).
* CBC in pieces equals CBC in one go exactly when all pieces but the last are whole blocks
  (`SeedCbc.SplitInvariant`, and for the calls themselves `SeedCbc.EncryptInPieces`).
* The space that the parser measures for a string is sufficient, whatever follows, exactly when the
  writing pass does not step over the quote at which measuring stopped (`JsonReserve.ReservedExact`);
  no string of the grammar and no printed string does (`JsonLenient.SpellingFits`,
  `JsonReserve.PrintedFits`).
* An accepted IPv6 text is expanded exactly when it is well formed, or begins with a single colon and
  loses its first fields (`Ipv6Forms.ExpandsExactly`).
* The greedy matcher mishandles exactly the patterns that end in two stars (`Wildcard.GreedyExact`),
  the memoised one exactly the texts that contain a star (`Memo.MemoExact`).
* An address in full form without leading zeros keeps its letter case; every other expansion is in
  lower case (`Ipv6Round.ExpandCompressed`).

`dafny verify dfyconfig.toml` checks everything.

## Model

| member | source | states |
|---|---|---|
| `Words.Byte2Word` | test_seed/KISA_SEED_ECB_CBC_CTR_CCM_GCM/[01] C-C++/[05] GCM/KISA_SEED_GCM.c:21-39 | the copied words are the big-endian words of the bytes, zero past the end, and words beyond the text are untouched |
| `Words.Word2Byte` | test_seed/KISA_SEED_ECB_CBC_CTR_CCM_GCM/[01] C-C++/[05] GCM/KISA_SEED_GCM.c:41-60 | exactly srcLen bytes of the block are written, every other byte of the buffer stays |
| `Words.LoadBlock` | test_seed/KISA_SEED_ECB_CBC_CTR_CCM_GCM/[01] C-C++/[05] GCM/KISA_SEED_GCM.c:18-39 | a short last block is loaded as the text filled with zero bytes |
| `Words.Xor128` | test_seed/KISA_SEED_ECB_CBC_CTR_CCM_GCM/[01] C-C++/[05] GCM/KISA_SEED_GCM.c:11-16 | the macro is exclusive or of blocks, also when the result overwrites an operand |
| `Shifts.QuadShiftr1Bytes` | test_seed/KISA_SEED_ECB_CBC_CTR_CCM_GCM/[01] C-C++/[05] GCM/KISA_SEED_GCM.c:5-10 | the word-wise macro with n = 1 is a one-bit right shift of the sixteen bytes, across words |
| `Shifts.QuadShiftr8Bytes` | test_seed/KISA_SEED_ECB_CBC_CTR_CCM_GCM/[01] C-C++/[05] GCM/KISA_SEED_GCM.c:5-10 | with n = 8 it moves every byte one place to the right |
| `Shifts.QuadShiftr16Bytes` | test_seed/KISA_SEED_ECB_CBC_CTR_CCM_GCM/[01] C-C++/[04] CCM/KISA_SEED_CCM.c:5-10 | with n = 16 it moves every byte two places to the right |
| `Gf128.SelectLinear` | test_seed/KISA_SEED_ECB_CBC_CTR_CCM_GCM/[01] C-C++/[05] GCM/KISA_SEED_GCM.c:99-152 | multiplication as section 6.3 of NIST SP 800-38D defines it is linear in its second operand |
| `Gf128.SelectXorBits` | test_seed/KISA_SEED_ECB_CBC_CTR_CCM_GCM/[01] C-C++/[05] GCM/KISA_SEED_GCM.c:99-152 | and in its first |
| `Gf128.MulXnLinear` | test_seed/KISA_SEED_ECB_CBC_CTR_CCM_GCM/[01] C-C++/[05] GCM/KISA_SEED_GCM.c:62-97 | multiplication by a power of x is linear, the reason a reduction table can exist |
| `Gf128Field.MulXCoefficients` | test_seed/KISA_SEED_ECB_CBC_CTR_CCM_GCM/[01] C-C++/[05] GCM/KISA_SEED_GCM.c:62-97 | multiplication by x moves every coefficient of the polynomial up by one and adds 1 + x + x^2 + x^7 for the one that falls out |
| `Gf128Field.MulCommutes` | test_seed/KISA_SEED_ECB_CBC_CTR_CCM_GCM/[01] C-C++/[05] GCM/KISA_SEED_GCM.c:99-152 | the product of two elements does not depend on their order |
| `Gf128Field.MulAssociates` | test_seed/KISA_SEED_ECB_CBC_CTR_CCM_GCM/[01] C-C++/[05] GCM/KISA_SEED_GCM.c:99-152 | nor the product of three on how they are grouped |
| `GhashTable.MulX8` | test_seed/KISA_SEED_ECB_CBC_CTR_CCM_GCM/[01] C-C++/[05] GCM/KISA_SEED_GCM.c:62-97 | shifting by a byte and adding the R8 entry of the byte that falls out is multiplication by x^8 with reduction |
| `GhashTable.MakeM8` | test_seed/KISA_SEED_ECB_CBC_CTR_CCM_GCM/[01] C-C++/[05] GCM/KISA_SEED_GCM.c:99-152 | for every H, row b of the table is the field product of the byte polynomial b with H, for all 256 rows |
| `GhashTable.Ghash8Bit` | test_seed/KISA_SEED_ECB_CBC_CTR_CCM_GCM/[01] C-C++/[05] GCM/KISA_SEED_GCM.c:154-183 | one call sets out to (out xor in) times H, exactly as bit-by-bit multiplication in GF(2^128) does |
| `Gcm.CodeLensExact` | test_seed/KISA_SEED_ECB_CBC_CTR_CCM_GCM/[01] C-C++/[05] GCM/KISA_SEED_GCM.c:288-293 | the length block of the code is that of the standard if and only if both lengths are below 2^29 bytes |
| `Gcm.ShortNonceCounter` | test_seed/KISA_SEED_ECB_CBC_CTR_CCM_GCM/[01] C-C++/[05] GCM/KISA_SEED_GCM.c:212-219 | with a 12-byte nonce the counter starts at 1 |
| `BlockModes.IncreaseBytes` | test_seed/KISA_SEED_ECB_CBC_CTR_CCM_GCM/[01] C-C++/[05] GCM/KISA_SEED_GCM.c:17 | INCREASE counts in the last eight bytes, big-endian, modulo 2^64 |
| `BlockModes.CountersAgree` | test_seed/KISA_SEED_ECB_CBC_CTR_CCM_GCM/[01] C-C++/[05] GCM/KISA_SEED_GCM.c:17 | counting in k bytes and in j > k bytes gives the same first n counters if and only if the narrow counter does not wrap |
| `Numbers.IncWidth` | test_seed/KISA_SEED_ECB_CBC_CTR_CCM_GCM/[01] C-C++/[05] GCM/KISA_SEED_GCM.c:17 | one step of the two counters agrees if and only if the narrow one does not overflow |
| `Numbers.IncDistinct` | test_seed/KISA_SEED_ECB_CBC_CTR_CCM_GCM/[01] C-C++/[04] CCM/KISA_SEED_CCM.c:17 | counters fewer than 256^k steps apart are different |
| `BlockModes.GctrTwice` | test_seed/KISA_SEED_ECB_CBC_CTR_CCM_GCM/[01] C-C++/[05] GCM/KISA_SEED_GCM.c:363-383 | counter-mode encryption is its own inverse for texts of any length |
| `BlockModes.GctrWidth` | test_seed/KISA_SEED_ECB_CBC_CTR_CCM_GCM/[01] C-C++/[05] GCM/KISA_SEED_GCM.c:242-262 | with too few blocks to wrap the narrow counter, the width of the counter does not change the ciphertext |
| `BlockModes.GctrExact` | test_seed/KISA_SEED_ECB_CBC_CTR_CCM_GCM/[01] C-C++/[05] GCM/KISA_SEED_GCM.c:242-262 | for whole blocks and any block function, counting in k or in j > k bytes gives the same ciphertext if and only if the narrow counter does not wrap within them |
| `BlockModes.WrappedText` | test_seed/KISA_SEED_ECB_CBC_CTR_CCM_GCM/[01] C-C++/[05] GCM/KISA_SEED_GCM.c:242-262 | a concrete text of two blocks whose ciphertexts differ |
| `BlockModes.CounterPass` | test_seed/KISA_SEED_ECB_CBC_CTR_CCM_GCM/[01] C-C++/[05] GCM/KISA_SEED_GCM.c:242-262 | the loop writes the counter-mode text into the output and nothing behind it, also in place |
| `Gcm.HashPass` | test_seed/KISA_SEED_ECB_CBC_CTR_CCM_GCM/[01] C-C++/[05] GCM/KISA_SEED_GCM.c:264-286 | the loop over data hashes exactly its zero-padded blocks |
| `Gcm.CodeIsGcm` | test_seed/KISA_SEED_ECB_CBC_CTR_CCM_GCM/[01] C-C++/[05] GCM/KISA_SEED_GCM.c:185-302 | what the code computes is authenticated encryption of section 7.1 of NIST SP 800-38D for all keys, texts and data below 2^29 bytes with a 12-byte nonce, and for other nonces while the low counter word does not wrap |
| `Gcm.CodeTextExact` | test_seed/KISA_SEED_ECB_CBC_CTR_CCM_GCM/[01] C-C++/[05] GCM/KISA_SEED_GCM.c:242-262 | the ciphertext of whole blocks is the standard's if and only if the low counter word does not wrap |
| `Gcm.CodeIsGcmExact` | test_seed/KISA_SEED_ECB_CBC_CTR_CCM_GCM/[01] C-C++/[05] GCM/KISA_SEED_GCM.c:185-302 | for whole blocks and lengths below 2^29 bytes the sealed output is that of GCM if and only if the low counter word does not wrap; with a 12-byte nonce it never does |
| `Gcm.SeedGcmEncryption` | test_seed/KISA_SEED_ECB_CBC_CTR_CCM_GCM/[01] C-C++/[05] GCM/KISA_SEED_GCM.c:185-302 | for every input: return code, length, ciphertext and tag, equal to the standard in the standard case; nothing else in the buffer changes |
| `Gcm.OpenIffSealed` | test_seed/KISA_SEED_ECB_CBC_CTR_CCM_GCM/[01] C-C++/[05] GCM/KISA_SEED_GCM.c:305-434 | decryption accepts exactly the sealed texts and returns what was sealed |
| `Gcm.OpenSeal` | test_seed/KISA_SEED_ECB_CBC_CTR_CCM_GCM/[01] C-C++/[05] GCM/KISA_SEED_GCM.c:185-434 | decryption of the output of encryption returns the plaintext, for any block function |
| `Gcm.SeedGcmDecryption` | test_seed/KISA_SEED_ECB_CBC_CTR_CCM_GCM/[01] C-C++/[05] GCM/KISA_SEED_GCM.c:305-434 | returns 0 with the plaintext if the recomputed tag equals the trailing bytes, otherwise 1 with every plaintext byte zero and the length not written; in place the tag is computed over the plaintext that has replaced the text |
| `Gcm.InPlaceOpens` | test_seed/KISA_SEED_ECB_CBC_CTR_CCM_GCM/[01] C-C++/[05] GCM/KISA_SEED_GCM.c:363-429 | so decryption in place accepts a sealed text exactly when the tags over ciphertext and plaintext coincide |
| `GcmTag.SealedTag` | test_seed/KISA_SEED_ECB_CBC_CTR_CCM_GCM/[01] C-C++/[05] GCM/KISA_SEED_GCM.c:185-302 | the full-length tag of every output: the sum of every block of data, ciphertext and lengths, each times the power of H that counts the blocks from it on, and the cipher of the starting counter block |
| `GcmTag.LengthsAre` | test_seed/KISA_SEED_ECB_CBC_CTR_CCM_GCM/[01] C-C++/[05] GCM/KISA_SEED_GCM.c:288-293 | the two halves of the length block are the numbers of bits of data and text, below 2^29 bytes |
| `GcmTag.SealedText` | test_seed/KISA_SEED_ECB_CBC_CTR_CCM_GCM/[01] C-C++/[05] GCM/KISA_SEED_GCM.c:242-262 | byte i of the ciphertext is byte i of the plaintext combined with byte i mod 16 of the cipher of a counter block that counts i / 16 + 1 past the starting one |
| `GcmTag.ShorterTag` | test_seed/KISA_SEED_ECB_CBC_CTR_CCM_GCM/[01] C-C++/[05] GCM/KISA_SEED_GCM.c:295-299 | a shorter tag is the beginning of the full one |
| `GcmTag.DataDifference` | test_seed/KISA_SEED_ECB_CBC_CTR_CCM_GCM/[01] C-C++/[05] GCM/KISA_SEED_GCM.c:264-274 | the tags over two strings of associated data of equal length differ by the polynomial in H of their difference |
| `GcmTag.TextDifference` | test_seed/KISA_SEED_ECB_CBC_CTR_CCM_GCM/[01] C-C++/[05] GCM/KISA_SEED_GCM.c:276-286 | the tags over two ciphertexts of equal length differ by the polynomial in H of their difference |
| `GcmTag.OneBlockOfData` | test_seed/KISA_SEED_ECB_CBC_CTR_CCM_GCM/[01] C-C++/[05] GCM/KISA_SEED_GCM.c:264-274 | for associated data of one block the two outputs are equal if and only if that polynomial, a single product, is zero |
| `BlockModes.GctrAt` | test_seed/KISA_SEED_ECB_CBC_CTR_CCM_GCM/[01] C-C++/[05] GCM/KISA_SEED_GCM.c:242-262 | byte i of a counter-mode text, by its counter block |
| `BlockModes.CompareAndClear` | test_seed/KISA_SEED_ECB_CBC_CTR_CCM_GCM/[01] C-C++/[05] GCM/KISA_SEED_GCM.c:420-429 | the comparison loop returns 0 if and only if all tag bytes agree, and clears the output otherwise |
| `Ccm.FormatPrefixFree` | test_seed/KISA_SEED_ECB_CBC_CTR_CCM_GCM/[01] C-C++/[04] CCM/KISA_SEED_CCM.c:115-172 | the formatted blocks of the standard, with data of any length, determine nonce, payload, data and tag length, and no formatted sequence is a proper prefix of another |
| `Ccm.CodeB0Is` | test_seed/KISA_SEED_ECB_CBC_CTR_CCM_GCM/[01] C-C++/[04] CCM/KISA_SEED_CCM.c:115-123 | the first block built by shifts and exclusive ors is B0 of section A.2.1 of NIST SP 800-38C |
| `Ccm.DataBlocksExact` | test_seed/KISA_SEED_ECB_CBC_CTR_CCM_GCM/[01] C-C++/[04] CCM/KISA_SEED_CCM.c:126-157 | the code encodes the length of the data in two bytes: its blocks are those of section A.2.2 of NIST SP 800-38C if and only if there are fewer than 0xFF00 bytes of data |
| `Ccm.CodeBlocksExact` | test_seed/KISA_SEED_ECB_CBC_CTR_CCM_GCM/[01] C-C++/[04] CCM/KISA_SEED_CCM.c:115-172 | all the blocks the code feeds to the CBC-MAC are the standard's under exactly that condition |
| `Ccm.LongData` | test_seed/KISA_SEED_ECB_CBC_CTR_CCM_GCM/[01] C-C++/[04] CCM/KISA_SEED_CCM.c:139 | for 65536 bytes of data the encoded length is zero where the standard's begins with 0xFFFE |
| `Ccm.CodeCounters` | test_seed/KISA_SEED_ECB_CBC_CTR_CCM_GCM/[01] C-C++/[04] CCM/KISA_SEED_CCM.c:85-96 | the i-th counter block of a run is the standard's Ctr_i, although INCREASE carries into eight bytes |
| `Ccm.CountersDistinct` | test_seed/KISA_SEED_ECB_CBC_CTR_CCM_GCM/[01] C-C++/[04] CCM/KISA_SEED_CCM.c:85-125 | within a run all counter blocks are different and none of them is B0 |
| `Ccm.CodeIsCcm` | test_seed/KISA_SEED_ECB_CBC_CTR_CCM_GCM/[01] C-C++/[04] CCM/KISA_SEED_CCM.c:62-181 | for all valid parameters and fewer than 0xFF00 bytes of data the output is that of section 6.1 of NIST SP 800-38C |
| `Ccm.MacPass` | test_seed/KISA_SEED_ECB_CBC_CTR_CCM_GCM/[01] C-C++/[04] CCM/KISA_SEED_CCM.c:145-172 | a loop over payload or data chains exactly its zero-padded blocks |
| `Ccm.SeedCcmEncryption` | test_seed/KISA_SEED_ECB_CBC_CTR_CCM_GCM/[01] C-C++/[04] CCM/KISA_SEED_CCM.c:62-181 | return code, length and output for every input, equal to CCM for valid parameters and short enough data; in place the tag is computed over the ciphertext that has replaced the payload |
| `Ccm.InPlaceOpens` | test_seed/KISA_SEED_ECB_CBC_CTR_CCM_GCM/[01] C-C++/[04] CCM/KISA_SEED_CCM.c:91-176 | a text sealed in place is opened exactly when the tags over payload and ciphertext coincide |
| `Ccm.OpenIffSealed` | test_seed/KISA_SEED_ECB_CBC_CTR_CCM_GCM/[01] C-C++/[04] CCM/KISA_SEED_CCM.c:183-314 | decryption accepts exactly the sealed texts |
| `Ccm.OpenSeal` | test_seed/KISA_SEED_ECB_CBC_CTR_CCM_GCM/[01] C-C++/[04] CCM/KISA_SEED_CCM.c:62-314 | decryption of the output of encryption returns the payload, for any block function |
| `Ccm.SeedCcmDecryption` | test_seed/KISA_SEED_ECB_CBC_CTR_CCM_GCM/[01] C-C++/[04] CCM/KISA_SEED_CCM.c:183-314 | returns 0 with the payload if the tag is right, otherwise 1 with every byte written cleared |
| `CcmMac.SealedTag` | test_seed/KISA_SEED_ECB_CBC_CTR_CCM_GCM/[01] C-C++/[04] CCM/KISA_SEED_CCM.c:113-176 | byte i of the tag: the last value of the chain over a first block with the three flag fields, nonce and length, the data behind its two-byte length, and the payload, combined with the cipher of counter block 0 |
| `CcmMac.SealedText` | test_seed/KISA_SEED_ECB_CBC_CTR_CCM_GCM/[01] C-C++/[04] CCM/KISA_SEED_CCM.c:91-112 | byte i of the ciphertext is that of the payload combined with the cipher of counter block i / 16 + 1 |
| `Seed.FeistelInverse` | test_seed/KISA_SEED_ECB_CBC_CTR_CCM_GCM/[01] C-C++/[05] GCM/KISA_SEED.c:256-320 | any number of rounds with any round function is undone by the same rounds with the keys reversed |
| `Seed.DecryptEncrypt` | test_seed/KISA_SEED_ECB_CBC_CTR_CCM_GCM/[01] C-C++/[05] GCM/KISA_SEED.c:256-320 | decryption undoes encryption, and encryption decryption, for any 32 round keys and any tables |
| `Seed.SeedEncrypt` | test_seed/KISA_SEED_ECB_CBC_CTR_CCM_GCM/[01] C-C++/[05] GCM/KISA_SEED.c:256-287 | the sixteen unrolled rounds are the Feistel network on the key pairs in order |
| `Seed.SeedDecrypt` | test_seed/KISA_SEED_ECB_CBC_CTR_CCM_GCM/[01] C-C++/[05] GCM/KISA_SEED.c:289-320 | and on the key pairs in reverse order |
| `Seed.SeedKeySched` | test_seed/KISA_SEED_ECB_CBC_CTR_CCM_GCM/[01] C-C++/[05] GCM/KISA_SEED.c:221-254 | every round key is a closed form of the rotated user key, although the registers are rotated in place |
| `SeedStandard.LookedUp` | test_seed/KISA_SEED_ECB_CBC_CTR_CCM_GCM/[01] C-C++/[05] GCM/KISA_SEED.c:21-74 | the lowest byte of the argument of G is looked up in SS0 and the highest in SS3, for any tables |
| `SeedStandard.GFormula` | test_seed/KISA_SEED_ECB_CBC_CTR_CCM_GCM/[01] C-C++/[05] GCM/KISA_SEED.c:21-74 | for tables made from the S-boxes with the masks, the bytes of G are those of the formulas in section 2.2 of RFC 4269 |
| `SeedStandard.RoundFormula` | test_seed/KISA_SEED_ECB_CBC_CTR_CCM_GCM/[01] C-C++/[05] GCM/KISA_SEED.c:59-72 | the round function is that of section 2.1 of RFC 4269, with sums of numbers modulo 2^32 |
| `SeedStandard.EncryptTrace` | test_seed/KISA_SEED_ECB_CBC_CTR_CCM_GCM/[01] C-C++/[05] GCM/KISA_SEED.c:256-287 | encryption passes through the states in which the halves change places and each round takes the next two key words, and returns the last halves exchanged |
| `SeedStandard.ConstantIs` | test_seed/KISA_SEED_ECB_CBC_CTR_CCM_GCM/[01] C-C++/[05] GCM/KISA_SEED.c:4-19 | each key constant is the one before rotated left by one bit, from 0x9e3779b9 on |
| `SeedStandard.ScheduleFormula` | test_seed/KISA_SEED_ECB_CBC_CTR_CCM_GCM/[01] C-C++/[05] GCM/KISA_SEED.c:35-57 | the words of round i are G of A + C less the constant and of B less D plus the constant, as numbers modulo 2^32, A to D being the key halves rotated by a byte after even and odd rounds in turn |
| `WordSums.AddIsSum` | test_seed/KISA_SEED_ECB_CBC_CTR_CCM_GCM/[01] C-C++/[05] GCM/KISA_SEED.c:59-72 | addition of words is addition of numbers modulo 2^32 |
| `WordSums.SubIsDifference` | test_seed/KISA_SEED_ECB_CBC_CTR_CCM_GCM/[01] C-C++/[05] GCM/KISA_SEED.c:35-57 | and subtraction its inverse |
| `AesSpec.InvMixOfMix` | test_aes_cbc/Aes.c:371-638 | InvMixColumns undoes MixColumns on every column |
| `AesSpec.InvMixLinear` | test_aes_cbc/Aes.c:784-806 | InvMixColumns is linear |
| `AesSpec.MixIsMatrix` | test_aes_cbc/Aes.c:36-303 | the sum of table columns is the matrix product of section 5.1.3 of FIPS 197 |
| `AesSpec.InvMixIsMatrix` | test_aes_cbc/Aes.c:371-638 | and of section 5.3.3 |
| `AesSpec.InvCipherOfCipher` | test_aes_cbc/Aes.c:809-1129 | the inverse cipher undoes the cipher, by an invariant over the ten rounds |
| `AesSpec.X2Coefficients` | test_aes_cbc/Aes.c:36-303 | multiplication by x in GF(2^8) moves every coefficient up and reduces x^8 to 1 + x + x^3 + x^4 |
| `AesSpec.CipherSteps` | test_aes_cbc/Aes.c:809-968 | the cipher passes through eleven states whose bytes are given one by one: the S-box of the bytes on a diagonal, their products with 2 and 3, and the round key |
| `AesSpec.EqInvIsInv` | test_aes_cbc/Aes.c:970-1129 | the equivalent inverse cipher with transformed keys is the inverse cipher |
| `AesSpec.EqInvCipherOfCipher` | test_aes_cbc/Aes.c:741-1129 | and so undoes the cipher, for any round keys |
| `Aes.EncRoundBytes` | test_aes_cbc/Aes.c:827-872 | a round of sixteen table lookups is SubBytes, ShiftRows, MixColumns and AddRoundKey |
| `Aes.DecRoundBytes` | test_aes_cbc/Aes.c:988-1033 | a decryption round of lookups is InvSubBytes, InvShiftRows, InvMixColumns and AddRoundKey |
| `Aes.EncLastBytes` | test_aes_cbc/Aes.c:940-967 | the masked lookups of the last round leave MixColumns out |
| `Aes.DecLastBytes` | test_aes_cbc/Aes.c:1101-1128 | the same for decryption |
| `Aes.RijndaelEncrypt` | test_aes_cbc/Aes.c:809-968 | the function computes Cipher of FIPS 197 on the sixteen bytes, also when input and output are the same buffer |
| `Aes.RijndaelDecrypt` | test_aes_cbc/Aes.c:970-1129 | the function computes EqInvCipher of FIPS 197 |
| `AesKeys.RconTableIsRcon` | test_aes_cbc/Aes.c:706-710 | the table holds the powers of x in GF(2^8) |
| `AesKeys.KeySetupEnc` | test_aes_cbc/Aes.c:741-764 | the 44 words are KeyExpansion of section 5.2 of FIPS 197 |
| `AesKeys.ScheduleBytes` | test_aes_cbc/Aes.c:741-764 | the bytes of the expanded key: of every first word the byte of the word four before combined with the S-box of the next byte of the word before, and x^i in the first place; the other words are sums of two |
| `AesKeys.KeySetupDec` | test_aes_cbc/Aes.c:766-807 | swapping and lookups leave exactly the key schedule of the equivalent inverse cipher, section 5.3.5 |
| `AesKeys.SwapRoundKeys` | test_aes_cbc/Aes.c:775-780 | the swapping loop turns the order of the eleven round keys around |
| `AesKeys.MixedKeyBytes` | test_aes_cbc/Aes.c:784-806 | four lookups through both tables are InvMixColumns on a key word |
| `AesKeys.DecryptOfEncrypt` | test_aes_cbc/Aes.c:741-1129 | decryption with keys from the one set-up undoes encryption with keys from the other, for every key and block |
| `Cbc.CbcRoundTrip` | test_aes_cbc/Aes.c:1131-1170 | CBC decryption undoes CBC encryption over any invertible block function |
| `Cbc.CbcAppend` | test_seed/KISA_SEED_ECB_CBC_CTR_CCM_GCM/[01] C-C++/[02] CBC/KISA_SEED_CBC.c:440-497 | encrypting in two parts, the second chained to the first, is encrypting the whole |
| `Cbc.CbcBlock` | test_aes_cbc/Aes.c:1131-1149 | block i of a ciphertext is the block function of block i of the text combined with the block of ciphertext before it |
| `Cbc.CbcBlockBack` | test_aes_cbc/Aes.c:1151-1170 | and for decryption |
| `AesCbc.EncryptedBlock` | test_aes_cbc/Aes.c:1131-1149 | so block i of the encrypted buffer, by the cipher under the expanded key |
| `AesCbc.Aes128CbcEncrypt` | test_aes_cbc/Aes.c:1131-1149 | in place: the whole blocks of data are chained, the last data_len mod 16 bytes and everything behind them stay |
| `AesCbc.Aes128CbcDecrypt` | test_aes_cbc/Aes.c:1151-1170 | in place, with the block function reading and writing the same bytes: CBC decryption of the whole blocks, the rest untouched |
| `AesCbc.DecryptedOfEncrypted` | test_aes_cbc/Aes.c:1131-1170 | decrypting the encrypted buffer restores every byte, for every length |
| `AesCbc.EncryptThenDecrypt` | test_aes_cbc/Aes.c:1131-1170 | the two calls one after the other leave the buffer as it was |
| `SeedCbc.KisaSeedInfo.Init` | test_seed/KISA_SEED_ECB_CBC_CTR_CCM_GCM/[01] C-C++/[02] CBC/KISA_SEED_CBC.c:381-438 | key schedule, IV and empty buffer |
| `SeedCbc.KisaSeedInfo.Process` | test_seed/KISA_SEED_ECB_CBC_CTR_CCM_GCM/[01] C-C++/[02] CBC/KISA_SEED_CBC.c:440-497 | writes the chained whole blocks, keeps the last chaining block and the left-over bytes, when encrypting also over its own input; a negative length changes nothing |
| `SeedCbc.KisaSeedInfo.Close` | test_seed/KISA_SEED_ECB_CBC_CTR_CCM_GCM/[01] C-C++/[02] CBC/KISA_SEED_CBC.c:499-539 | encrypts the padded remainder; when decrypting, accepts a last byte of 1 to 16 and clears that many bytes |
| `SeedCbc.RunNext` | test_seed/KISA_SEED_ECB_CBC_CTR_CCM_GCM/[01] C-C++/[02] CBC/KISA_SEED_CBC.c:440-497 | what one Process writes is the first part of what the whole chunked run writes, and its state continues the run |
| `SeedCbc.RunIsSealed` | test_seed/KISA_SEED_ECB_CBC_CTR_CCM_GCM/[01] C-C++/[02] CBC/KISA_SEED_CBC.c:440-539 | a chunked run encrypts in one shot the chunks with the tails of all but the last dropped |
| `SeedCbc.KisaSeedInfo.Feed` | test_seed/KISA_SEED_ECB_CBC_CTR_CCM_GCM/[01] C-C++/[02] CBC/KISA_SEED_CBC.c:440-539 | any sequence of Process calls and a Close leave exactly the chunked run in the buffer and nothing else changed |
| `SeedCbc.EncryptInPieces` | test_seed/KISA_SEED_ECB_CBC_CTR_CCM_GCM/[01] C-C++/[02] CBC/KISA_SEED_CBC.c:381-539 | Init, a Process for every piece and Close write the one-shot ciphertext of the whole text if and only if every piece but the last is a multiple of 16 bytes |
| `SeedCbc.SplitInvariant` | test_seed/KISA_SEED_ECB_CBC_CTR_CCM_GCM/[01] C-C++/[02] CBC/KISA_SEED_CBC.c:440-539 | the chunked run of the pieces is the one-shot ciphertext under exactly that condition |
| `SeedCbc.UnalignedSplit` | test_seed/KISA_SEED_ECB_CBC_CTR_CCM_GCM/[01] C-C++/[02] CBC/KISA_SEED_CBC.c:467-471 | a concrete split that gives a different ciphertext |
| `SeedCbc.UnpaddedOfPadded` | test_seed/KISA_SEED_ECB_CBC_CTR_CCM_GCM/[01] C-C++/[02] CBC/KISA_SEED_CBC.c:510-535 | removing the padding of section 6.3 of RFC 5652 gives back the text |
| `SeedCbc.PaddedBytes` | test_seed/KISA_SEED_ECB_CBC_CTR_CCM_GCM/[01] C-C++/[02] CBC/KISA_SEED_CBC.c:510-516 | the padded text is the text and then as many bytes as fill a block, at least one, each of the value of their number |
| `SeedCbc.SealedBlock` | test_seed/KISA_SEED_ECB_CBC_CTR_CCM_GCM/[01] C-C++/[02] CBC/KISA_SEED_CBC.c:541-574 | block i of the one-shot ciphertext, by the padded text and the block before |
| `SeedCbc.OpenedExactly` | test_seed/KISA_SEED_ECB_CBC_CTR_CCM_GCM/[01] C-C++/[02] CBC/KISA_SEED_CBC.c:522-535 | opening returns p exactly when the deciphered text is p and 1 to 16 bytes more, the last of which has their number as its value |
| `SeedCbc.ProperlyPadded` | test_seed/KISA_SEED_ECB_CBC_CTR_CCM_GCM/[01] C-C++/[02] CBC/KISA_SEED_CBC.c:522-535 | only the last byte is checked: what is accepted was padded if and only if all removed bytes have its value |
| `SeedCbc.OpenedOfSealed` | test_seed/KISA_SEED_ECB_CBC_CTR_CCM_GCM/[01] C-C++/[02] CBC/KISA_SEED_CBC.c:541-629 | decryption returns the original bytes and length for every length |
| `SeedCbc.SeedCbcEncrypt` | test_seed/KISA_SEED_ECB_CBC_CTR_CCM_GCM/[01] C-C++/[02] CBC/KISA_SEED_CBC.c:541-574 | the one-shot function writes exactly the padded CBC ciphertext |
| `SeedCbc.SeedCbcDecrypt` | test_seed/KISA_SEED_ECB_CBC_CTR_CCM_GCM/[01] C-C++/[02] CBC/KISA_SEED_CBC.c:576-629 | for every ciphertext: 0 for a bad length or bad padding, otherwise the opened text and its length |
| `SeedCtr.UpdateCounter` | test_seed/KISA_SEED_ECB_CBC_CTR_CCM_GCM/[01] C-C++/[03] CTR/KISA_SEED_CTR.c:235-262 | the loop increments bytes 2 to 15 with carries; when they overflow it increments byte 1 and byte 0 |
| `SeedCtr.SuccNum` | test_seed/KISA_SEED_ECB_CBC_CTR_CCM_GCM/[01] C-C++/[03] CTR/KISA_SEED_CTR.c:235-262 | the carrying loop adds one to the number that the bytes denote |
| `SeedCtr.CtrNextExact` | test_seed/KISA_SEED_ECB_CBC_CTR_CCM_GCM/[01] C-C++/[03] CTR/KISA_SEED_CTR.c:235-262 | one update is addition of one modulo 2^128 if and only if bytes 2 to 15 are not all 0xFF or byte 1 is |
| `SeedCtr.CtrAtClosed` | test_seed/KISA_SEED_ECB_CBC_CTR_CCM_GCM/[01] C-C++/[03] CTR/KISA_SEED_CTR.c:235-262 | the counter after n updates in closed form |
| `SeedCtr.CtrExact` | test_seed/KISA_SEED_ECB_CBC_CTR_CCM_GCM/[01] C-C++/[03] CTR/KISA_SEED_CTR.c:235-262 | after n updates the counter is the start plus n modulo 2^128 if and only if the overflows carry correctly out of byte 1 |
| `SeedCtr.CtrWithinLow` | test_seed/KISA_SEED_ECB_CBC_CTR_CCM_GCM/[01] C-C++/[03] CTR/KISA_SEED_CTR.c:235-262 | in particular as long as the low 112 bits have not overflowed |
| `SeedCtr.CtrDistinct` | test_seed/KISA_SEED_ECB_CBC_CTR_CCM_GCM/[01] C-C++/[03] CTR/KISA_SEED_CTR.c:235-262 | counters fewer than 2^112 updates apart are different, whatever the start |
| `SeedCtr.CtrModeTwice` | test_seed/KISA_SEED_ECB_CBC_CTR_CCM_GCM/[01] C-C++/[03] CTR/KISA_SEED_CTR.c:533-599 | encrypting twice restores a text of any length |
| `SeedCtr.CtrModeAt` | test_seed/KISA_SEED_ECB_CBC_CTR_CCM_GCM/[01] C-C++/[03] CTR/KISA_SEED_CTR.c:483-531 | byte i of the text is combined with byte i mod 16 of the cipher of the counter after i / 16 updates |
| `SeedCtr.CtrModePrefix` | test_seed/KISA_SEED_ECB_CBC_CTR_CCM_GCM/[01] C-C++/[03] CTR/KISA_SEED_CTR.c:515-531 | what follows the text in the last block does not change the text's own bytes |
| `SeedCtr.CtrModeBlocks` | test_seed/KISA_SEED_ECB_CBC_CTR_CCM_GCM/[01] C-C++/[03] CTR/KISA_SEED_CTR.c:483-513 | for whole blocks and any block function the text is that of counter mode with a 128-bit counter, section 6.5 of NIST SP 800-38A, if and only if every counter used is right |
| `SeedCtr.CtrModeExact` | test_seed/KISA_SEED_ECB_CBC_CTR_CCM_GCM/[01] C-C++/[03] CTR/KISA_SEED_CTR.c:483-531 | for texts of any length: right counters suffice, and those of the whole blocks are necessary |
| `SeedCtr.CtrModeStandard` | test_seed/KISA_SEED_ECB_CBC_CTR_CCM_GCM/[01] C-C++/[03] CTR/KISA_SEED_CTR.c:483-513 | so it is that of the standard while the low 112 bits do not overflow |
| `SeedCtr.WrongText` | test_seed/KISA_SEED_ECB_CBC_CTR_CCM_GCM/[01] C-C++/[03] CTR/KISA_SEED_CTR.c:235-262 | a concrete start and text for which it is not |
| `SeedCtr.KisaSeedInfo.Init` | test_seed/KISA_SEED_ECB_CBC_CTR_CCM_GCM/[01] C-C++/[03] CTR/KISA_SEED_CTR.c:424-481 | key schedule and starting counter |
| `SeedCtr.KisaSeedInfo.Process` | test_seed/KISA_SEED_ECB_CBC_CTR_CCM_GCM/[01] C-C++/[03] CTR/KISA_SEED_CTR.c:483-513 | whole blocks of text and key stream, the counter advanced once for each, the overhang recorded as a negative length |
| `SeedCtr.KisaSeedInfo.Close` | test_seed/KISA_SEED_ECB_CBC_CTR_CCM_GCM/[01] C-C++/[03] CTR/KISA_SEED_CTR.c:515-531 | clears the overhang |
| `SeedCtr.SeedCtrEncrypt` | test_seed/KISA_SEED_ECB_CBC_CTR_CCM_GCM/[01] C-C++/[03] CTR/KISA_SEED_CTR.c:533-599 | the one-shot function writes exactly the counter-mode text; the decryption function is the same |
| `Wildcard.IsMatch` | test_wildcard/match2/main.c:4-78 | terminates for all texts and patterns although both cursors move back, and returns 1 exactly when every pattern character has its place in the text, the last of two stars at the end taking at least one character; for patterns without stars, exactly for the texts that are equal at every place without a question mark |
| `Wildcard.LanguagesPlaced` | test_wildcard/match2/main.c:4-78 | the language of a pattern, and of its effective pattern, by the places of its characters in the text, without recursion |
| `Wildcard.StarFree` | test_wildcard/match2/main.c:27-41 | a pattern without stars is matched exactly by the texts of its length that are equal to it wherever it has no question mark |
| `Wildcard.FirstStar` | test_wildcard/match2/main.c:12-26 | p followed by a star and q, with no star in p, is matched exactly by a text that p takes, any text and a text that q matches |
| `Wildcard.OnlyItself` | test_wildcard/match2/main.c:27-41 | a pattern without wildcards is matched only by itself |
| `Wildcard.MeetStar` | test_wildcard/match2/main.c:12-26 | reaching a star makes every earlier star irrelevant: retrying only from the last one loses no match |
| `Wildcard.MeetMismatch` | test_wildcard/match2/main.c:42-70 | after a mismatch the restart position is the only one that still matters, and a restart only happens when one is recorded |
| `Wildcard.TextOver` | test_wildcard/match2/main.c:74-77 | at the end of the text only the end of the pattern or a single star accepts |
| `Wildcard.EffectiveSame` | test_wildcard/match2/main.c:4-78 | the effective pattern is the pattern unless it ends in two stars |
| `Wildcard.GreedyExact` | test_wildcard/match2/main.c:4-78 | the matcher decides the pattern's language on all texts if and only if the pattern does not end in two stars |
| `Wildcard.LeftoverStars` | test_wildcard/match2/main.c:74-77 | a concrete text and pattern on which it does not |
| `Memo.Memoization` | test_wildcard/memoization/main.c:8-33 | every entry of the table stays -1 or the answer for its two suffixes over all recursive calls, and the result is the answer; the remaining lengths decrease |
| `Memo.MatchAll` | test_wildcard/memoization/main.c:8-33 | the call on a fresh table decides the match: for patterns without stars equality up to question marks, for texts without stars the pattern's language, and for all the places of DecidedPlaces |
| `Memo.DecidedPlaces` | test_wildcard/memoization/main.c:8-33 | the recursion accepts exactly when every pattern character has a place in the text, a star going up to and with the first star of the text it meets, or ending before another character |
| `Memo.DecidesStarFree` | test_wildcard/memoization/main.c:8-33 | for a text without stars the recursion decides the declarative relation, for every pattern |
| `Memo.StarInText` | test_wildcard/memoization/main.c:12-16 | for every text with a star, a pattern that matches it and is rejected |
| `Memo.MemoExact` | test_wildcard/memoization/main.c:8-33 | the matcher is right for all patterns if and only if the text has no star |
| `JsonParser.Skip` | test_cJSON/test_cJSON1/cJSON.c:261 | the cursor stops at the first character above a space |
| `JsonParser.ParseNumber` | test_cJSON/test_cJSON1/cJSON.c:96-115 | value and end of a number, for every text, in exact real arithmetic |
| `JsonReads.NumberReads` | test_cJSON/test_cJSON1/cJSON.c:96-115 | a number, also one with a leading zero, without integer digits behind its sign or without digits behind its exponent letter, has its usual decimal value, in exact real arithmetic |
| `JsonParser.ParseString` | test_cJSON/test_cJSON1/cJSON.c:155-212 | the characters that the writing pass produces and the cursor after them, for every text |
| `JsonReserve.MeasureString` | test_cJSON/test_cJSON1/cJSON.c:162 | the measuring pass counts one for each character or pair of a backslash and a character |
| `JsonReserve.WrittenFits` | test_cJSON/test_cJSON1/cJSON.c:162-208 | a writing pass that does not step over the quote at which measuring stopped never writes more than was reserved |
| `JsonReserve.ReservedExact` | test_cJSON/test_cJSON1/cJSON.c:162-208 | whatever follows that quote, the reserved space is sufficient if and only if the writing pass does not step over the quote |
| `JsonReserve.Overrun` | test_cJSON/test_cJSON1/cJSON.c:179-181 | a literal for which one character is reserved and three are written |
| `JsonReserve.WellEscapedContained` | test_cJSON/test_cJSON1/cJSON.c:162-191 | a literal in which every Unicode escape has its four digits is never stepped out of |
| `JsonReserve.ParseStringBuffer` | test_cJSON/test_cJSON1/cJSON.c:155-212 | on such a literal both passes run into a buffer of exactly the measured length, terminator included |
| `JsonReserve.PrintedFits` | test_cJSON/test_cJSON1/cJSON.c:155-248 | every printed string is one, so reading it back stays inside the reserved space |
| `JsonReads.ClosedRead` | test_cJSON/test_cJSON1/cJSON.c:167-208 | every spelling of a string, with letter escapes, four digits or surrogate pairs, is read as the bytes it stands for |
| `JsonLenient.SpellingFits` | test_cJSON/test_cJSON1/cJSON.c:162-208 | and fits into the reserved space |
| `JsonReads.SourceReads` | test_cJSON/test_cJSON1/cJSON.c:287-439 | every text of the lenient grammar, with any white space, wherever it stands, is read as the tree it denotes, and reading stops exactly behind it |
| `JsonLenient.ValueExactly` | test_cJSON/test_cJSON1/cJSON.c:287-439 | a value is read exactly where a text of the lenient grammar stands, up to its end, and as what it denotes: the accepted texts in both directions |
| `JsonLenient.ParsedExactly` | test_cJSON/test_cJSON1/cJSON.c:264-284 | a document is accepted exactly when it is white space and such a text, and, where the end is checked, nothing but white space behind it |
| `JsonErrors.FailsExactly` | test_cJSON/test_cJSON1/cJSON.c:287-439 | a value is refused, with the error at ep, exactly when the text leads through openings, items and members to ep and what stands there is none of the characters expected |
| `JsonErrors.ParsedFailsExactly` | test_cJSON/test_cJSON1/cJSON.c:264-278 | a document is refused at ep exactly for such an error in its value or for what stands behind it |
| `JsonLenient.ProperReads` | test_cJSON/test_cJSON1/cJSON.c:287-439 | every text of RFC 8259 is one of these |
| `JsonLenient.DocumentParses` | test_cJSON/test_cJSON1/cJSON.c:264-284 | a document between white space is parsed to the tree it denotes, with or without the check that nothing follows |
| `JsonLenient.AcceptsMore` | test_cJSON/test_cJSON1/cJSON.c:96-167 | texts outside the grammar that are accepted: a minus sign alone, an unterminated string |
| `JsonLenient.DroppedEscapes` | test_cJSON/test_cJSON1/cJSON.c:179-186 | the code zero, half a surrogate pair and four characters that are no hexadecimal digits are read as nothing |
| `JsonSyntax.HexPlace` | test_cJSON/test_cJSON1/cJSON.c:140-151 | a hexadecimal digit has the value of its place among them, in either case, and no other character has one |
| `JsonNumber.Utf8Back` | test_cJSON/test_cJSON1/cJSON.c:192-201 | a Unicode escape is written as the UTF-8 encoding of its code point |
| `JsonParser.ParseArray` | test_cJSON/test_cJSON1/cJSON.c:320-345 | the loop reads the items one after the other or reports the position of the error |
| `JsonParser.ParseObject` | test_cJSON/test_cJSON1/cJSON.c:406-439 | the same for members |
| `JsonParser.ParseValue` | test_cJSON/test_cJSON1/cJSON.c:287-299 | tree and end, or error position, as the grammar functions give them |
| `JsonParser.ParseWithOpts` | test_cJSON/test_cJSON1/cJSON.c:264-278 | with or without the check that nothing follows |
| `JsonRound.NumberBack` | test_cJSON/test_cJSON1/cJSON.c:96-137 | an integer printed in decimal is read back as itself if nothing follows that could belong to it |
| `JsonRound.BodyBack` | test_cJSON/test_cJSON1/cJSON.c:155-248 | unescaping undoes escaping, for every string without a zero byte |
| `JsonRound.ValueBack` | test_cJSON/test_cJSON1/cJSON.c:155-507 | a value printed anywhere in a text, at any depth and in either layout, is read back and reading stops exactly after it |
| `JsonRound.ParsePrinted` | test_cJSON/test_cJSON1/cJSON.c:155-507 | parsing the printed text gives back the tree, also when more text follows |
| `JsonRound.ParsePrintedWhole` | test_cJSON/test_cJSON1/cJSON.c:264-284 | and the printed text is a whole document |
| `JsonRound.PrintInjective` | test_cJSON/test_cJSON1/cJSON.c:283-284 | different trees print differently, whatever their layouts |
| `JsonPrint.SizesSuffice` | test_cJSON/test_cJSON1/cJSON.c:348-507 | the sizes of the first pass are sufficient for every array and object, depth and layout, terminator included |
| `JsonPrint.PrintStringPtr` | test_cJSON/test_cJSON1/cJSON.c:215-248 | the escaped string fills a buffer of exactly the computed size |
| `JsonPrint.PrintNumber` | test_cJSON/test_cJSON1/cJSON.c:118-126 | every int fits in the twenty-one characters reserved |
| `JsonPrint.PrintArray` | test_cJSON/test_cJSON1/cJSON.c:348-403 | the second pass writes the text of the array within the computed size |
| `JsonPrint.PrintObject` | test_cJSON/test_cJSON1/cJSON.c:442-507 | the same for an object with members |
| `JsonPrint.PrintEmptyObject` | test_cJSON/test_cJSON1/cJSON.c:450-459 | and without |
| `JsonPrint.PrintValue` | test_cJSON/test_cJSON1/cJSON.c:302-317 | a fresh buffer holds the text of the tree and its terminator |
| `JsonLayout.LaidOut` | test_cJSON/test_cJSON1/cJSON.c:348-507 | the formatted text of any tree is its unformatted text with layout put in by rules for single characters that know only which brackets are open |
| `JsonLayout.EscapedForm` | test_cJSON/test_cJSON1/cJSON.c:215-248 | a character is printed as itself, behind a backslash as the letter that means it, or by its code in four lower-case digits, and when each is the case |
| `JsonLayout.DecimalForm` | test_cJSON/test_cJSON1/cJSON.c:118-126 | a number is printed by its sign and the digits of its absolute value, without leading zeros |
| `JsonMinify.Minify` | test_cJSON/test_cJSON1/cJSON.c:581-596 | in place: whenever the text is a list of single characters, layout, literals and comments, what remains is the concatenation of the single characters and literals; the write cursor is never ahead of the read cursor, and nothing behind the text is touched |
| `JsonMinify.PiecesRun` | test_cJSON/test_cJSON1/cJSON.c:581-596 | the same wherever the list of pieces stands |
| `JsonMinify.ClosedExactly` | test_cJSON/test_cJSON1/cJSON.c:581-596 | the texts that consist of such pieces are exactly those in which every literal and every comment is closed, on which the C code stays inside the text |
| `JsonMinify.QuotedRuns` | test_cJSON/test_cJSON1/cJSON.c:592 | a string literal is copied byte for byte, escapes included |
| `JsonMinify.ValueRuns` | test_cJSON/test_cJSON1/cJSON.c:348-596 | a formatted value is minified to the unformatted one wherever it stands in a text |
| `JsonMinify.MinifyPrinted` | test_cJSON/test_cJSON1/cJSON.c:283-596 | minifying the formatted text of any tree gives its unformatted text |
| `Ipv6Text.VerifyFormat` | test_ipv6/ipv6_util/ipv6_util.c:12-85 | the scanning loop with its flags returns the declarative verdict, with each of its error codes, for every text |
| `Ipv6Meaning.VerdictExactly` | test_ipv6/ipv6_util/ipv6_util.c:12-85 | the verdict by the places of characters: the sets of colons and of double colons, and five characters without a colon |
| `Ipv6Meaning.NeverTooManyFields` | test_ipv6/ipv6_util/ipv6_util.c:81-83 | the code for too many fields beside a double colon is never returned |
| `Ipv6Compress.MarkRun` | test_ipv6/ipv6_util/ipv6_util.c:546-577 | exactly the fields of the rightmost run of zero fields are marked |
| `Ipv6Compress.ReadFields` | test_ipv6/ipv6_util/ipv6_util.c:520-544 | every field without its leading zeros, and its mark |
| `Ipv6Compress.WriteOut` | test_ipv6/ipv6_util/ipv6_util.c:582-600 | the flags write the double colon at the beginning, in the middle, at the end or not at all |
| `Ipv6Compress.CompressAddress` | test_ipv6/ipv6_util/ipv6_util.c:497-603 | the compressed form: leading zeros dropped and the rightmost zero run replaced |
| `Ipv6Meaning.CompressedRun` | test_ipv6/ipv6_util/ipv6_util.c:497-603 | with a zero field: the shortened fields, those of the rightmost run of zero fields replaced by a double colon |
| `Ipv6Meaning.CompressedPlain` | test_ipv6/ipv6_util/ipv6_util.c:497-603 | without one: the shortened fields |
| `Ipv6Compress.CompressedBound` | test_ipv6/ipv6_util/ipv6_util.c:497-603 | the compressed form is never longer than 39 characters, so nothing is cut off |
| `Ipv6Compress.AcceptedFull` | test_ipv6/ipv6_util/ipv6_util.c:628-644 | a 39-character text without a double colon that the verifier accepts is eight full fields |
| `Ipv6Expand.ExpandOmitted` | test_ipv6/ipv6_util/ipv6_util.c:198-254 | expansion of omitted leading zeros, for every text |
| `Ipv6Expand.ExpandBegin` | test_ipv6/ipv6_util/ipv6_util.c:259-328 | expansion of a leading double colon from the number of colons |
| `Ipv6Expand.ExpandMiddle` | test_ipv6/ipv6_util/ipv6_util.c:330-430 | expansion of an inner double colon |
| `Ipv6Expand.ExpandEnd` | test_ipv6/ipv6_util/ipv6_util.c:432-495 | expansion of a trailing double colon |
| `Ipv6Expand.CountColons` | test_ipv6/ipv6_util/ipv6_util.h:101-102 | the macro counts the colons |
| `Ipv6Expand.ToLowerCase` | test_ipv6/ipv6_util/ipv6_util.h:104 | the macro maps every character to lower case |
| `Ipv6Expand.GetCompressed` | test_ipv6/ipv6_util/ipv6_util.c:628-644 | verifier, type and compression together, with their return codes |
| `Ipv6Expand.GetExpanded` | test_ipv6/ipv6_util/ipv6_util.c:646-663 | verifier, type and expansion together, for every text |
| `Ipv6Forms.ExpandedDouble` | test_ipv6/ipv6_util/ipv6_util.c:259-495 | the expansion of every accepted text with a double colon: a single colon at the end is refused, one at the beginning loses the fields in front of the double colon, and otherwise all fields are padded with zero fields between them |
| `Ipv6Forms.ExpandedOmitted` | test_ipv6/ipv6_util/ipv6_util.c:198-254 | the expansion of every accepted shorter text without a double colon: refused unless it has seven colons and none at either end |
| `Ipv6Forms.ExpandDoubled` | test_ipv6/ipv6_util/ipv6_util.c:259-495 | for all lists of at most seven fields of one to four digits around a double colon: accepted, and expanded to the padded fields with zero fields between, in lower case |
| `Ipv6Forms.ExpandJoined` | test_ipv6/ipv6_util/ipv6_util.c:198-254 | the same for eight fields with colons between them; a text that is already full is copied |
| `Ipv6Meaning.PadForm` | test_ipv6/ipv6_util/ipv6_util.c:182-196 | a padded field: four characters, its digits behind zeros |
| `Ipv6Meaning.LowerForm` | test_ipv6/ipv6_util/ipv6_util.h:104 | lower case, character by character |
| `Ipv6Meaning.JoinedAt` | test_ipv6/ipv6_util/ipv6_util.c:198-254 | where the fields of a full address stand |
| `Ipv6Forms.ExpandsExactly` | test_ipv6/ipv6_util/ipv6_util.c:646-663 | an accepted text is expanded if and only if it is well formed or begins with a single colon, has a double colon later and no single colon at the end |
| `Ipv6Forms.DroppedExample` | test_ipv6/ipv6_util/ipv6_util.c:432-495 | a concrete accepted text whose field is lost |
| `Ipv6Round.CompressedAccepted` | test_ipv6/ipv6_util/ipv6_util.c:12-85 | the verifier accepts the compressed form of every address |
| `Ipv6Round.ExpandCompressed` | test_ipv6/ipv6_util/ipv6_util.c:198-663 | expanding the compressed form of an address gives the address back up to letter case, wherever the zero run lies |

## Left out

- SEED's four lookup tables are parameters, made from any two S-boxes where their contents matter, and the contents of AES's tables are given by formula; the R8 table is given by its eight basis values and linearity. The literal tables are not compared.
- The nine unrolled AES rounds are written as one loop. The four-word locals of the block functions are values; buffers that are passed around or overwritten are arrays.
- Words are unsigned 32-bit values and the little-endian branch of the preprocessor is taken. In the CBC and CTR files the word arrays of the state are held as the bytes they consist of, and the conversions between bytes and words, which are the identity on those bytes, do not appear.
- Byte counts of the GCM and CCM functions stay at or below 0xFFFFFFEF, above which the loop counters of the C code wrap; the `int` lengths of the CBC and CTR files and the numeric fields of cJSON are unbounded.
- NULL arguments, allocation failure and `free` are not modelled; nor is reading uninitialised padding, whose values are arbitrary here.
- SeedCbc.KisaSeedInfo.Process: decryption over its own input, which chains to the bytes it has just overwritten, is excluded; so is decrypting no block at all into the beginning of a buffer, where the C code reads in front of it.
- SeedCbc.SeedCbcDecrypt: a ciphertext of length zero is excluded for the same reason.
- SeedCbc.KisaSeedInfo.Feed: no piece is read from the output buffer.
- SeedCtr.KisaSeedInfo.Process: the buffers hold whole blocks, and what follows the text in the last block is arbitrary. The one-shot functions do not arrange this for the input: chartoint32_for_SEED_CTR allocates only the words of nInputTextLen bytes, and when these do not fill the last block the C function reads past that buffer to the end of the block.
- SeedCtr.UpdateCounter: only the call with increment 1 from byte 15 is modelled, the only one the file makes; the nonce combination function is not used by it.
- Gcm.SeedGcmDecryption: requires ctLen to be at least macLen when macLen is at most 16, as the C code does silently; the same holds for CCM.
- Memo.Memoization: the loop that always leaves on its first pass is an if.
- JsonParser.ParseString: the output grows instead of being reserved, so the contract also covers literals for which the reserved space is insufficient; that is so, for some text behind the measured quote, exactly when the writing pass steps over that quote (`JsonReserve.ReservedExact`), and `JsonReserve.ParseStringBuffer` is the function with its two passes for all other literals. A text that ends inside an escape reads as zeros where the C code reads past the terminator.
- JsonLenient.ProperReads: of the spellings of RFC 8259 those of the code zero and of half a surrogate pair are not included, since the parser drops them; the lenient grammar contains them.
- JsonParser.ParseNumber: floating point is modelled by real numbers, and the exponent is unbounded.
- JsonMinify.Minify: requires the text to consist of pieces, that is, every literal and comment to be closed, since otherwise the C code runs past the terminator.
- JsonPrint.PrintNumber: numbers that are not integers in the range of int, which go through %f and %e, are not printed.
- JsonParser.ParseObject: the sibling and child pointers of the C tree are sequences, so list surgery, references, duplication and deletion are not modelled, nor is the lookup of members.
- Ipv6Expand.ExpandBegin: called on text that the verifier accepts, as the dispatcher does; the same holds for the other expanders of a double colon. IPv4-mapped conversion and the object that holds the strings are left out.
- Ipv6Compress.CompressAddress: called on full addresses, which is what the dispatcher passes.
- The other copies of cJSON and of SEED, the ECB mode, the base64, hex, trimming and INI helpers, the other wildcard program and everything that does input and output.
