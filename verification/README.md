# Verified model of the mbedtls core

This project models the cryptographic core that the HTTP server carries in its vendored mbedtls library and
proves what that core is for: multi-precision integers against plain integer arithmetic, block-cipher modes and
streaming contexts against their standards, ciphers whose decryption must undo encryption, and codecs that must
read back what they write. `dafny verify dfyconfig.toml` checks the whole project.

How the model reads the source:

- An mpi is an object `Mpi` with a sign `s` and limbs `p` of 64 bits, least significant first. `Val(p)` is the
  magnitude and `Int()` the signed value; a negative zero is allowed and reads as 0. Every bignum method is proved
  against `Int()` or `Val`, with wrap-around of limb operations written out (`WAdd`, `WSub`, `WMul`).
- Modes of operation (`CipherCbc`, `Xts`, `Ccm`, `Cmac`) are proved for every `BlockCipher`, a pair with
  `dec(enc(x)) == x` on blocks; `Aes.AesIsBlockCipher` shows that AES is one.
- Contexts are classes whose abstract value (bytes so far, position in the key stream, message so far) every method
  keeps up to date. Buffers with a moving pointer are sequences with an index; input and output are distinct.
- Bytes are numbers below 256 in the modes and codecs and `bv8` / `bv32` in AES, Camellia and ARIA.

Modules: `Arith`, `Limbs`, `Bytes`, `Words`, `BoxTables`, `CbcMacs` hold shared definitions; `Mpis` to `MillerRabin` model
bignum.c (with `NumberTheory` proving Fermat's little theorem and the strong-probable-prime property of primes from
first principles); `CipherCbc`, `Xts`, `Ccm`, `Cmac`, `ChaCha20`, `ChaChaPoly` the modes; `Gf256`, `AesRound`,
`AesTables`, `AesCipher`, `Aes` AES; `Camellia`, `Aria`; `Der`, `DerWrite`, `DerParse`, `Base64` the codecs.

## What the proofs show about the code

- `exp_mod` with a negative sign of the base, a negative zero included: the result is congruent to A^E and within
  [0, N], and it is the reduced residue exactly unless E is odd and N divides A^E; then N itself comes back instead of 0.
  `ExpMod.ExpResultMeaning` states this both ways, `ExpMod.ExpResultNotReduced` gives (-1)^1 mod 1, and
  `ExpMod.ExpResultCoprime` shows that it cannot happen for N > 1 coprime to A.
- `gcd(A, 0)` returns 0 although the greatest common divisor is |A|; for every other pair of arguments the result is
  the gcd. `MpiGcd.Gcd` states it as an if-and-only-if.
- Long division is right for every normalisation of the divisor: the proof of the quotient digit does not use that
  the divisor is shifted to b/4. The second correction loop of `mod_mpi` never does anything after `div_mpi`.
- Zero padding returns the message exactly if its length is a multiple of the block size or it does not end in a zero
  byte (`CipherCbc.RoundTrip`).
- CCM with an empty tag (`tag_len` 0) sets the first five flag bits of B_0 to ones, because `tag_len - 2` wraps
  (`Ccm.FlagsFields`). The tag is not handed out in that case.
- `asn1_write_tagged_int` writes one byte for any negative number, so an int comes back exactly if it is not negative
  (`Der.IntRoundTrip`).
- `asn1_write_mpi` writes zero without content, which is no DER integer, unless the byte behind the cursor has its first
  bit set; the parser of this library reads zero back from both forms (`Der.MpiContentIsDer`, `Der.MpiRoundTrip`).
- On a padding error `mbedtls_cipher_finish` leaves an output length behind that wraps around when the last byte of the
  block exceeds the block size (`CipherCbc.DataLen`).
- The base64 decoder never writes more than it announces, and exactly that if and only if the characters after the last
  group of four are no more than the equal signs (`Base64.WritesWithin`).

## Model

| member | source | states |
|---|---|---|
| `Mpis.Grow` | mbedtls/library/bignum.c:121-146 | growing appends zero limbs and keeps sign and value |
| `Mpis.Copy` | mbedtls/library/bignum.c:193-230 | X takes the value and sign of Y, also for X == Y; it keeps its limbs except that an empty Y leaves it empty |
| `Mpis.Lset` | mbedtls/library/bignum.c:332-346 | the value becomes z for every signed limb; for the lowest one the negation is taken to wrap |
| `Mpis.Clz` | mbedtls/library/bignum.c:413-426 | 64 minus the bit length of the limb, 64 for 0 |
| `Mpis.Bitlen` | mbedtls/library/bignum.c:431-445 | the unique n with 2^(n-1) <= \|X\| < 2^n, 0 for 0 |
| `Mpis.BitLenProps` | mbedtls/library/bignum.c:431-445 | the bit length brackets the value between two powers of two |
| `Mpis.Lsb` | mbedtls/library/bignum.c:397-408 | the number k such that 2^k divides X and 2^(k+1) does not; 0 for X == 0 |
| `Mpis.CmpAbs` | mbedtls/library/bignum.c:1104-1131 | the sign of \|X\| - \|Y\|, whatever leading zero limbs there are |
| `Mpis.CmpMpi` | mbedtls/library/bignum.c:1136-1166 | the sign of X - Y, negative zeros included |
| `Mpis.CmpInt` | mbedtls/library/bignum.c:1272-1284 | the sign of X - z |
| `MpiShift.ShiftL` | mbedtls/library/bignum.c:1009-1055 | the magnitude is multiplied by 2^count, the sign kept, with just the limbs needed |
| `MpiShift.ShiftR` | mbedtls/library/bignum.c:1060-1099 | the magnitude is divided by 2^count rounding down, and the sign of a nonzero result kept |
| `MpiAdd.AddAbs` | mbedtls/library/bignum.c:1289-1343 | X = \|A\| + \|B\| for any aliasing of X, A and B, carry into a new limb included |
| `MpiAdd.SubHlp` | mbedtls/library/bignum.c:1360-1374 | n limbs minus n limbs modulo b^n, the borrow being exactly the comparison |
| `MpiAdd.SubAbs` | mbedtls/library/bignum.c:1379-1429 | \|A\| - \|B\|, or the negative-value error exactly if \|A\| < \|B\|, for any aliasing |
| `MpiAdd.AddMpi` | mbedtls/library/bignum.c:1434-1464 | X = A + B as integers, for all signs and any aliasing |
| `MpiAdd.SubMpi` | mbedtls/library/bignum.c:1469-1499 | X = A - B as integers, for all signs and any aliasing |
| `MpiAdd.SubInt` | mbedtls/library/bignum.c:1522-1535 | X = A - z |
| `MpiMul.MulAddC` | mbedtls/include/mbedtls/bn_mul.h:913-935 | one limb of d + s*b + c from half-limb products: the two result limbs hold the exact sum |
| `MpiMul.MulHlp` | mbedtls/library/bignum.c:1548-1607 | a whole row d += s*b, the carry chased to its end without leaving d |
| `MpiMul.MulMpi` | mbedtls/library/bignum.c:1612-1647 | X = A * B as integers, for any aliasing |
| `MpiMul.MulInt` | mbedtls/library/bignum.c:1652-1665 | the magnitude is multiplied by a limb, the sign kept |
| `IntDiv.HalfDigit` | mbedtls/library/bignum.c:1731-1752 | the quotient digit of a two-digit estimate corrected in the loop is the exact digit |
| `IntDiv.IntDivInt` | mbedtls/library/bignum.c:1684-1760 | Algorithm D on half limbs returns floor((u1*b + u0)/d) and the exact remainder, all ones on overflow |
| `IntDiv.IntDivWide` | mbedtls/library/bignum.c:1671-1704 | the double-width branch returns the same quotient and remainder |
| `MpiDiv.QuotRem` | mbedtls/library/bignum.c:1766-1889 | A = Q*B + R with \|R\| < \|B\| and R zero or with the sign of A |
| `MpiDiv.QuotRemUnique` | mbedtls/library/bignum.c:1766-1889 | no other pair has these properties |
| `MpiDiv.EstimateDigit` | mbedtls/library/bignum.c:1829-1851 | the corrected quotient digit is the true one or one too large, for any divisor with a nonzero top limb |
| `MpiDiv.DivStep` | mbedtls/library/bignum.c:1829-1863 | after multiply, subtract and at most one add-back the rest is non-negative and below the shifted divisor |
| `MpiDiv.Normalise` | mbedtls/library/bignum.c:1799-1814 | both operands are shifted by the same k < 64 so that the divisor's top limb has its second highest bit set |
| `MpiDiv.LongDivision` | mbedtls/library/bignum.c:1816-1864 | the digit loop: X = Z*Y + X' with 0 <= X' < Y |
| `MpiDiv.DivMpi` | mbedtls/library/bignum.c:1766-1889 | truncated quotient and remainder for every A and B, either of Q and R absent, error exactly for B == 0 with nothing changed |
| `MpiDiv.ModMpi` | mbedtls/library/bignum.c:1913-1934 | the residue in [0, B), the errors for B < 0 and B == 0 |
| `Montgomery.NewtonStep` | mbedtls/library/bignum.c:1998-2010 | one step of x *= 2 - m0*x doubles the number of correct low bits, despite wrap-around |
| `Montgomery.MontgInit` | mbedtls/library/bignum.c:1998-2010 | mm * N[0] == -1 modulo 2^64 for every odd N[0] |
| `Montgomery.MontIteration` | mbedtls/library/bignum.c:2046-2058 | one round keeps the accumulator congruent and below the bound, and no carry leaves the scratch limbs |
| `Montgomery.MontMul` | mbedtls/library/bignum.c:2034-2079 | A becomes A*B*R^-1 mod N, below N, the branch-free final subtraction included |
| `Montgomery.MontRed` | mbedtls/library/bignum.c:2086-2096 | A becomes A*R^-1 mod N |
| `ExpMod.CollectBit` | mbedtls/library/bignum.c:2251-2257 | a bit added to an open window keeps the window's value and the exponent read so far |
| `ExpMod.FillTable` | mbedtls/library/bignum.c:2189-2212 | every entry of the upper half of W holds the Montgomery form of the power of A that its index says |
| `ExpMod.WindowBit` | mbedtls/library/bignum.c:2232-2275 | one exponent bit: a completed window index is in the filled half of the table and X stays A to the bits consumed |
| `ExpMod.WindowLoop` | mbedtls/library/bignum.c:2214-2276 | after the loop X holds A to all bits outside the open window, for every window size |
| `ExpMod.RemainingBits` | mbedtls/library/bignum.c:2278-2289 | the unfinished window is worked off bit by bit and completes the exponent |
| `ExpMod.PowerMod` | mbedtls/library/bignum.c:2132-2294 | X = A^E mod N for A >= 0, odd N > 0 and every window size |
| `ExpMod.LoadRR` | mbedtls/library/bignum.c:2158-2171 | R^2 mod N is the same number computed afresh or taken from the cache, and the cache holds it afterwards |
| `ExpMod.ExpMod` | mbedtls/library/bignum.c:2101-2313 | the result for every A, E and N, and the input error exactly for N <= 0, N even or E < 0 |
| `ExpMod.ExpResultMeaning` | mbedtls/library/bignum.c:2296-2300 | congruent to A^E, within [0, N], and the reduced residue exactly unless the sign of A is negative, E odd and N divides A^E |
| `ExpMod.ExpResultCoprime` | mbedtls/library/bignum.c:2296-2300 | for N > 1 coprime to A the result is A^E mod N, whatever the signs |
| `ExpMod.ExpResultNotReduced` | mbedtls/library/bignum.c:2296-2300 | (-1)^1 mod 1 gives 1 and not 0 |
| `MpiGcd.GcdStep` | mbedtls/library/bignum.c:2344-2359 | one pass keeps the gcd after restoring the power of two and makes TA + TB smaller |
| `MpiGcd.Gcd` | mbedtls/library/bignum.c:2318-2369 | the result is the gcd exactly if B != 0 or A == 0; it is 0 for B == 0 |
| `MpiInv.HalvePass` | mbedtls/library/bignum.c:2446-2458 | a halving is exact and keeps the linear combination, whether N is even or odd |
| `MpiInv.ExtendedRound` | mbedtls/library/bignum.c:2444-2486 | both combinations survive a round, common divisors are inherited and TU + TV goes down |
| `MpiInv.ExtendedGcd` | mbedtls/library/bignum.c:2444-2487 | the loop terminates with TU == 0 and both combinations intact |
| `MpiInv.InvMod` | mbedtls/library/bignum.c:2411-2504 | an X in [1, N) with A*X == 1 mod N exactly if gcd(A, N) == 1, errors otherwise with X unchanged |
| `MpiInv.NoInverse` | mbedtls/library/bignum.c:2426-2432 | where not-acceptable is reported no inverse exists |
| `NumberTheory.FermatLittle` | mbedtls/library/bignum.c:2569-2657 | a^(p-1) == 1 mod p for every prime p and 0 < a < p |
| `NumberTheory.PrimeIsStrongProbable` | mbedtls/library/bignum.c:2569-2657 | a prime passes the strong test to every base |
| `MillerRabin.PickBase` | mbedtls/library/bignum.c:2595-2614 | an accepted base lies in (1, X-1); the retry limit is reported only after 31 refused draws |
| `MillerRabin.Decompose` | mbedtls/library/bignum.c:2584-2591 | X - 1 == R * 2^s with R odd |
| `MillerRabin.Round` | mbedtls/library/bignum.c:2616-2648 | a round continues exactly if b^R is 1 or one of b^(R 2^i), i < s, is -1 modulo X |
| `MillerRabin.Test` | mbedtls/library/bignum.c:2569-2657 | a prime is never rejected except by the retry limit, and a zero result means that every one of the bases passed, with the passing condition written out |
| `MillerRabin.CompositeFound` | mbedtls/library/bignum.c:2640-2648 | a failed round proves X composite |
| `Gf256.Order` | mbedtls/library/aes.c:405-420 | 3 has order exactly 255, so the power table of the table generation repeats no entry |
| `Gf256.HasLog` | mbedtls/library/aes.c:405-420 | every nonzero byte is a power of 3, so the log table is total |
| `Gf256.InvIsInverse` | mbedtls/library/aes.c:436-438 | x^254 is the multiplicative inverse of FIPS 197 |
| `Gf256.SBoxInverse` | mbedtls/library/aes.c:433-448 | S-box and inverse S-box undo each other in both orders |
| `AesTables.PowLog` | mbedtls/library/aes.c:405-420 | the loop fills pow with the powers of 3 and log with logarithms of every nonzero byte |
| `AesTables.RoundConstants` | mbedtls/library/aes.c:421-428 | the ten powers of x |
| `AesTables.SBoxes` | mbedtls/library/aes.c:430-448 | the tables are the S-box of section 5.1.1 and its inverse of section 5.3.2 of FIPS 197 |
| `AesTables.RomTables` | mbedtls/library/aes.c:98-263 | the literal tables FSb and RSb, entry by entry, are the S-boxes of FIPS 197 |
| `AesTables.MulByLog` | mbedtls/library/aes.c:401 | the product from logarithms is the field product |
| `AesTables.GenTables` | mbedtls/library/aes.c:405-483 | all ten tables are what the cipher needs |
| `AesRound.InvMixOfMix` | mbedtls/library/aes.c:456-482 | InvMixColumns undoes MixColumns |
| `AesRound.InvMixXor` | mbedtls/library/aes.c:718-727 | InvMixColumns is linear, the reason the transformed schedule works |
| `AesRound.ForwardTable` | mbedtls/library/aes.c:456-470 | four FT lookups make MixColumns of four S-box outputs |
| `AesRound.ReverseTable` | mbedtls/library/aes.c:472-482 | four RT lookups make InvMixColumns |
| `AesCipher.CipherInverse` | mbedtls/library/aes.c:871-1013 | the inverse cipher of FIPS 197 undoes the cipher for any round keys and number of rounds |
| `AesCipher.EquivalentInverse` | mbedtls/library/aes.c:673-738 | with the schedule of setkey_dec the equivalent inverse cipher is the inverse cipher (section 5.3.5 of FIPS 197) |
| `Aes.ForwardRound` | mbedtls/library/aes.c:819-841 | a table round is AddRoundKey after MixColumns, ShiftRows and SubBytes |
| `Aes.ReverseRound` | mbedtls/library/aes.c:843-865 | a table round of the equivalent inverse cipher |
| `Aes.EncryptBlock` | mbedtls/library/aes.c:871-931 | the cipher of section 5.1 of FIPS 197 on the loaded block |
| `Aes.CipherStart` | mbedtls/library/aes.c:878-883 | the first round key is added word by word |
| `Aes.CipherRound` | mbedtls/library/aes.c:885-891 | a round byte by byte: byte i of a column comes from the column i places on, through the S-box and the matrix |
| `Aes.CipherEnd` | mbedtls/library/aes.c:893-915 | the last round byte by byte, without the matrix |
| `Aes.MixColumnIs` | mbedtls/library/aes.c:453-468 | the matrix with its coefficients 2, 3, 1, 1 |
| `Aes.DecryptBlock` | mbedtls/library/aes.c:951-1011 | the equivalent inverse cipher |
| `Aes.Expand128` | mbedtls/library/aes.c:604-618 | the unrolled loop is the key expansion recurrence of FIPS 197 for four key words |
| `Aes.Expand192` | mbedtls/library/aes.c:620-636 | the same for six key words, two words past the ones used still inside the buffer |
| `Aes.Expand256` | mbedtls/library/aes.c:638-662 | the same for eight key words, with the extra substitution at every fourth word that Law256 spells out |
| `Aes.Law256` | mbedtls/library/aes.c:638-662 | the words of a 256-bit schedule one by one: core with rotation and constant, substitution in place at i mod 8 == 4, plain elsewhere |
| `Aes.Context.SetkeyEnc` | mbedtls/library/aes.c:557-666 | the key bytes as words, then every word as the recurrence of section 5.2 of FIPS 197 gives it, with the S-box, the bytes and the round constants written out for each of the three key sizes; or the key-length error with the context unchanged |
| `Aes.Context.SetkeyDec` | mbedtls/library/aes.c:673-738 | the schedule of the equivalent inverse cipher for the same key |
| `Aes.Context.CryptEcb` | mbedtls/library/aes.c:1030-1062 | one block in either direction |
| `Aes.DecryptUndoesEncrypt` | mbedtls/library/aes.c:557-738 | for every key size, key and block, decryption under setkey_dec returns what was encrypted under setkey_enc |
| `Aes.AesIsBlockCipher` | mbedtls/library/aes.c:1030-1062 | AES meets the hypothesis under which the modes of operation are proved |
| `Aes.AesWithIsCode` | mbedtls/library/aes.c:1030-1062 | its two directions are what crypt_ecb computes under the schedules of setkey_enc and setkey_dec |
| `Xts.Gf128MulX` | mbedtls/library/aes.c:1178-1191 | the two-word update is multiplication by x modulo x^128 + x^7 + x^2 + x + 1 |
| `Xts.WordsAreTimesX` | mbedtls/library/aes.c:1186-1187 | the carry between the words and the reduction term are right for all values |
| `Xts.StealInverse` | mbedtls/library/aes.c:1263-1297 | ciphertext stealing is undone when the last two tweaks are exchanged |
| `Xts.UnitInverse` | mbedtls/library/aes.c:1196-1300 | decryption undoes encryption for every length of at least one block and every tweak |
| `Xts.CryptXts` | mbedtls/library/aes.c:1196-1300 | every full block is whitened with x^k times the encrypted data unit before and after the cipher, stealing treats the last two pieces with their tweaks exchanged for decryption, and the length error comes exactly below 16 and above 2^24 bytes |
| `Xts.TweakAtIs` | mbedtls/library/aes.c:1178-1191 | tweak k + 1 is tweak k doubled and reduced by 0x87 beyond 128 bits |
| `CipherCbc.CbcInverse` | mbedtls/library/cipher.c:575-662 | CBC decryption undoes CBC encryption |
| `CipherCbc.CbcEncBlock` | mbedtls/library/aes.c:1119-1130 | block k is the cipher of plaintext block k with ciphertext block k - 1, or the vector |
| `CipherCbc.CbcDecBlock` | mbedtls/library/aes.c:1102-1115 | block k is the decrypted block k with ciphertext block k - 1, or the vector |
| `CipherCbc.AnySplit` | mbedtls/library/cipher.c:575-662 | any sequence of updates gives the output and state of one update with the concatenation |
| `CipherCbc.CbcContext.Update` | mbedtls/library/cipher.c:575-662 | the buffered update on unprocessed_data computes that specification |
| `CipherCbc.CbcContext.Finish` | mbedtls/library/cipher.c:967-1014 | finish pads or unpads the last block, with its error cases and the output length it leaves behind in each of them |
| `CipherCbc.CbcFunc` | mbedtls/library/cipher.c:575-662 | the block loop is CBC and leaves the next chaining value |
| `CipherCbc.AddPadding` | mbedtls/library/cipher.c:755-881 | the four padding writers fill the block as their formats say and keep the data |
| `CipherCbc.PadBlockIs` | mbedtls/library/cipher.c:755-881 | every byte of the padded block in the four formats |
| `CipherCbc.UnpadIs` | mbedtls/library/cipher.c:765-901 | for the four readers, exactly which blocks are accepted with which data length, byte by byte |
| `CipherCbc.GetPkcsPadding` | mbedtls/library/cipher.c:765-788 | accepts exactly blocks that end in n bytes of value n, 1 <= n <= block size |
| `CipherCbc.GetOneAndZerosPadding` | mbedtls/library/cipher.c:806-827 | finds the last 0x80 before trailing zeros or reports an error, and the length it leaves behind in both cases |
| `CipherCbc.GetZerosAndLenPadding` | mbedtls/library/cipher.c:845-867 | accepts exactly zeros followed by their count |
| `CipherCbc.GetZerosPadding` | mbedtls/library/cipher.c:883-901 | the length without trailing zeros |
| `CipherCbc.DataLenOfGood` | mbedtls/library/cipher.c:765-901 | the length a reader leaves behind is the number of data bytes for every accepted block |
| `CipherCbc.UnpadPad` | mbedtls/library/cipher.c:755-901 | reading a padded block gives back its length, for zero padding if the data does not end in 0 |
| `CipherCbc.EncryptAnySplit` | mbedtls/library/cipher.c:575-662 | updates and finish under any split equal one-shot CBC of the padded message |
| `CipherCbc.PadMessageIs` | mbedtls/library/cipher.c:967-988 | the padded message is the message with its incomplete last block completed, a whole block more where there is none |
| `CipherCbc.DecryptAnySplit` | mbedtls/library/cipher.c:575-662 | for every input and split: an error after the whole blocks without a complete last block, otherwise one-shot CBC and what the padding of the last block says, bad padding included |
| `CipherCbc.DecryptPadded` | mbedtls/library/cipher.c:967-1014 | the ciphertext of a well padded message decrypts to it under any split |
| `CipherCbc.NoPaddingAnySplit` | mbedtls/library/cipher.c:575-662 | without padding every split equals one-shot CBC, with an error for a partial block |
| `CipherCbc.RoundTrip` | mbedtls/library/cipher.c:575-662 | encrypting under one split and decrypting under another returns the message, for zero padding under the exact condition |
| `CbcMacs.MacConcat` | mbedtls/library/ccm.c:126-131 | CBC-MAC of a concatenation chains through the first part |
| `CbcMacs.MacSnoc` | mbedtls/library/ccm.c:126-131 | one block more is one exclusive or and one encryption more |
| `Ccm.FlagsFields` | mbedtls/library/ccm.c:195-204 | the flags byte has the three fields of section 2.2 of RFC 3610 for tags of 4 to 16 bytes, and what it is for an empty tag |
| `Ccm.PutLength` | mbedtls/library/ccm.c:208-212 | the length in q bytes, and the remainder test is exactly length >= 256^q |
| `Ccm.IncrementCounter` | mbedtls/library/ccm.c:302-308 | the byte loop adds one to the q-byte counter |
| `Ccm.IncrementIs` | mbedtls/library/ccm.c:302-308 | counting up the bytes of v gives the bytes of v + 1 |
| `Ccm.MacAdditional` | mbedtls/library/ccm.c:219-251 | the chain over the length field, the additional data and its zero padding |
| `Ccm.CryptMessage` | mbedtls/library/ccm.c:263-309 | key stream from counter 1 and MAC of the plaintext side, in both modes |
| `Ccm.AuthCrypt` | mbedtls/library/ccm.c:154-321 | every output byte is the input byte with the encrypted counter block of its position, every tag byte is that of CBC-MAC over B_0, the padded additional field and the padded plaintext with the encrypted zero counter, and the input error comes exactly for illegal parameters or lengths |
| `Ccm.FirstBlocksAre` | mbedtls/library/ccm.c:195-231 | the bytes of B_0 and of the additional field |
| `Ccm.AuthDecrypt` | mbedtls/library/ccm.c:364-400 | the plaintext exactly if the tag is right, otherwise zeros and the authentication error |
| `Ccm.RoundTrip` | mbedtls/library/ccm.c:364-400 | the key stream applied twice returns the plaintext, so the tag is computed over the same bytes again |
| `Ccm.EncryptThenDecrypt` | mbedtls/library/ccm.c:326-400 | auth_decrypt of what encrypt_and_tag produces succeeds with the plaintext, for all legal parameters and lengths |
| `Ccm.CountersDistinct` | mbedtls/library/ccm.c:208-212 | the length check keeps all counter blocks of a message different from each other and from A_0 |
| `Bytes.Differ` | mbedtls/library/ccm.c:389-391 | the accumulated difference is nonzero exactly if the tags differ |
| `Cmac.MultiplyByU` | mbedtls/library/cmac.c:84-130 | multiplication by u in GF(2^64) and GF(2^128), an error for other block sizes |
| `Cmac.TimesUIs` | mbedtls/library/cmac.c:84-130 | doubled, and reduced by 0x1B or 0x87 when the first bit is set |
| `Cmac.GenerateSubkeys` | mbedtls/library/cmac.c:137-166 | the two subkeys of section 2.3 of RFC 4493 |
| `Cmac.MacOfParts` | mbedtls/library/cmac.c:311-370 | the MAC is the cipher of the treated last block on top of CBC-MAC of all blocks before it |
| `Cmac.Context.Update` | mbedtls/library/cmac.c:243-309 | the state stays CBC-MAC of all but the last 1 to block-size bytes, which are held back |
| `Cmac.Context.Finish` | mbedtls/library/cmac.c:311-370 | for a positive whole number of blocks the cipher of last block, doubled L and chain; for every other length of padded rest, twice doubled L and chain; and a fresh state |
| `Cmac.Context.Reset` | mbedtls/library/cmac.c:372-389 | the context starts over with an empty message |
| `Cmac.MacOfChunks` | mbedtls/library/cmac.c:243-370 | the same two formulas of section 2.4 of RFC 4493 for every way of cutting a message into updates |
| `ChaCha20.Context.Starts` | mbedtls/library/chacha20.c:233-254 | the key stream starts at the given counter |
| `ChaCha20.Context.Update` | mbedtls/library/chacha20.c:256-319 | byte i of the output is byte i of the input with the key stream byte of its position since starts, counter wrap included, however the data is cut |
| `ChaCha20.XorStreamConcat` | mbedtls/library/chacha20.c:256-319 | the key stream over a concatenation is the concatenation |
| `ChaChaPoly.Context.Starts` | mbedtls/library/chachapoly.c:135-173 | the one-time key is bytes 0 to 31 of key stream block 0 and the text starts at block 1 |
| `ChaChaPoly.Context.UpdateAad` | mbedtls/library/chachapoly.c:175-188 | additional data accumulates before the text and is refused afterwards |
| `ChaChaPoly.Context.Update` | mbedtls/library/chachapoly.c:190-239 | the output continues the one-shot output in both modes; refused outside a run |
| `ChaChaPoly.Context.Finish` | mbedtls/library/chachapoly.c:241-296 | the MAC under the first half of block 0, over data, zeros to a multiple of 16, ciphertext, zeros, and both lengths in 8 bytes; refused before starts, accepted again after a finish |
| `ChaChaPoly.CryptAndTag` | mbedtls/library/chachapoly.c:298-326 | every output byte by its key stream byte from block 1 on, and the tag of section 2.8 of RFC 7539 written out |
| `ChaChaPoly.AuthDecrypt` | mbedtls/library/chachapoly.c:349-387 | the text exactly if the tag is right, otherwise zeros and the authentication error |
| `ChaChaPoly.DecryptUndoesEncrypt` | mbedtls/library/chachapoly.c:190-239 | the key stream applied twice returns the text |
| `ChaChaPoly.EncryptThenDecrypt` | mbedtls/library/chachapoly.c:328-387 | auth_decrypt of what encrypt_and_tag produces succeeds with the text, whatever the context did before |
| `Camellia.FLInverse` | mbedtls/library/camellia.c:274-284 | FL and FLInv undo each other |
| `Camellia.ReverseKeys` | mbedtls/library/camellia.c:454-500 | the copying loop exchanges the whitening keys and reverses the subkey pairs |
| `Camellia.CryptBlock` | mbedtls/library/camellia.c:505-567 | the loop is six rounds a group with FL layers between groups and whitening around |
| `Camellia.CryptEnds` | mbedtls/library/camellia.c:523-565 | the whitening words in front and behind and the exchanged halves |
| `Camellia.CryptStep` | mbedtls/library/camellia.c:533-553 | two rounds a step with their subkey words, and FL and FLInv in place of every fourth |
| `Camellia.FLIs` | mbedtls/library/camellia.c:274-284 | the two layers word by word |
| `Camellia.DecryptUndoesEncrypt` | mbedtls/library/camellia.c:454-567 | the cipher under the reversed schedule inverts it, for every F function and schedule |
| `Aria.CodeIsDiffuse` | mbedtls/library/aria.c:207-229 | the shared-subexpression code on words computes the 16 x 16 byte matrix of section 2.4.3 of RFC 5794 |
| `Aria.DiffuseInvolution` | mbedtls/library/aria.c:207-229 | A undoes itself |
| `Aria.DiffuseLinear` | mbedtls/library/aria.c:207-229 | A is linear over exclusive or |
| `BoxTables.FirstBoxes` | mbedtls/library/aria.c:265-340 | the tables aria_sb1 and aria_is1, entry by entry, are inverse to each other |
| `BoxTables.SecondBoxes` | mbedtls/library/aria.c:291-366 | the tables aria_sb2 and aria_is2, entry by entry, are inverse to each other |
| `Aria.SlInverse` | mbedtls/library/aria.c:239-260 | SL1 and SL2, with the four tables of the source, undo each other in both orders |
| `Aria.InvertKeys` | mbedtls/library/aria.c:510-540 | the in-place flip and transform give the decryption schedule |
| `Aria.CryptBlock` | mbedtls/library/aria.c:545-597 | the two-rounds-a-turn loop is the cipher |
| `Aria.RoundIs` | mbedtls/library/aria.c:562-590 | a round byte by byte: key, the four tables in the order of its layer, the matrix |
| `Aria.CryptIs` | mbedtls/library/aria.c:577-594 | the last round and the final key |
| `Aria.DecryptUndoesEncrypt` | mbedtls/library/aria.c:510-597 | the cipher with the tables of the source inverts itself under the transformed schedule, for every schedule and block |
| `Der.LenRoundTrip` | mbedtls/library/asn1parse.c:51-107 | every length below 2^32 is read back from its shortest form, consuming exactly its bytes |
| `Der.TlvRoundTrip` | mbedtls/library/asn1parse.c:109-122 | tag, length and content of a written element are found |
| `Der.TlvIs` | mbedtls/library/asn1write.c:183-195 | tag, length of the content, content |
| `Der.IntRoundTrip` | mbedtls/library/asn1parse.c:143-185 | a C int comes back exactly if it is not negative; what a negative one comes back as |
| `Der.IntContentIsDer` | mbedtls/library/asn1write.c:235-262 | the content of a non-negative int is its shortest two's complement form |
| `Der.MpiRoundTrip` | mbedtls/library/asn1parse.c:202-218 | a big number comes back as its magnitude, zero included |
| `Der.MpiContentIsDer` | mbedtls/library/asn1write.c:133-167 | the content has a byte exactly if the number is not zero or the byte behind it makes the code add one, and no superfluous zero byte |
| `Der.BitstringRoundTrip` | mbedtls/library/asn1parse.c:220-248 | a bit string comes back with its number of bits and every bit |
| `Der.SignificantBits` | mbedtls/library/asn1write.c:307-348 | a named bit string loses exactly its trailing zero bits |
| `Der.AlgRoundTrip` | mbedtls/library/asn1parse.c:385-427 | an object identifier with any parameter element, NULL included, comes back |
| `Der.SequenceOfRoundTrip` | mbedtls/library/asn1parse.c:254-382 | a sequence of written elements comes back element by element |
| `DerWrite.Writer.WriteLen` | mbedtls/library/asn1write.c:43-105 | the shortest length form in front of the cursor, or an error; nothing else changes |
| `DerWrite.EncLenIs` | mbedtls/library/asn1write.c:43-105 | the five length forms byte by byte |
| `DerWrite.Writer.WriteTag` | mbedtls/library/asn1write.c:107-115 | one byte in front of the cursor, or the buffer error |
| `DerWrite.Writer.WriteRaw` | mbedtls/library/asn1write.c:117-130 | the bytes in front of the cursor exactly if there is room |
| `DerWrite.Writer.WriteMpi` | mbedtls/library/asn1write.c:133-167 | the number with a zero byte where its first bit is set, length and tag, and what zero is written as; the buffer error exactly if it does not fit |
| `DerWrite.Writer.WriteNull` | mbedtls/library/asn1write.c:170-181 | 05 00 |
| `DerWrite.Writer.WriteString` | mbedtls/library/asn1write.c:183-195 | content, length and tag; the buffer error exactly if they do not fit, the length error for contents of 2^32 bytes and more |
| `DerWrite.Writer.WriteAlg` | mbedtls/library/asn1write.c:197-216 | the sequence of object identifier and NULL, or of object identifier and the parameters that stand behind the cursor |
| `DerWrite.Writer.WriteInt` | mbedtls/library/asn1write.c:235-262 | the bytes of an int low to high, zero byte, length and tag; the cursor moves by the returned count and never below start |
| `DerWrite.Writer.WriteBitstring` | mbedtls/library/asn1write.c:350-381 | unused-bits byte and bits with the unused ones cleared |
| `DerWrite.Writer.WriteNamedBitstring` | mbedtls/library/asn1write.c:307-348 | the bit string without its trailing zeros |
| `DerWrite.TrimBits` | mbedtls/library/asn1write.c:325-345 | the shift loop stops at the last set bit |
| `DerParse.Parser.GetLen` | mbedtls/library/asn1parse.c:51-107 | value and cursor, or which error, for every input |
| `DerParse.Parser.GetTag` | mbedtls/library/asn1parse.c:109-122 | the same for a tagged element |
| `DerParse.Parser.GetInt` | mbedtls/library/asn1parse.c:143-185 | the number if it is non-negative and below 2^31, whatever leading zeros; errors otherwise |
| `DerParse.Int32Fits` | mbedtls/library/asn1parse.c:163-175 | the size test after skipping zeros is exactly value < 2^31 |
| `DerParse.Parser.GetMpi` | mbedtls/library/asn1parse.c:202-218 | the content as a number, cursor after it |
| `DerParse.Parser.GetBitstring` | mbedtls/library/asn1parse.c:220-248 | the bit string if it reaches to the end |
| `DerParse.Parser.GetSequenceOf` | mbedtls/library/asn1parse.c:254-299 | every element of the tag asked for, in order, or which error |
| `DerParse.Parser.GetAlg` | mbedtls/library/asn1parse.c:385-427 | identifier and parameters, absent parameters included, with the errors |
| `Base64.EncodeBuffer` | mbedtls/library/base64.c:77-139 | the encoding with its final zero, or the size needed, overflow of the size included |
| `Base64.EncCharIs` | mbedtls/library/base64.c:44-53 | the alphabet by its characters |
| `Base64.EncodeGroupIs` | mbedtls/library/base64.c:106-118 | group i is the 24 bits of three bytes in four sextets, most significant first |
| `Base64.FirstPass` | mbedtls/library/base64.c:151-187 | the scan loop: how many characters and equal signs count, or an invalid character |
| `Base64.ScanMeans` | mbedtls/library/base64.c:151-187 | what the first pass accepts is alphabet characters followed by at most two equal signs, and it counts them |
| `Base64.SecondPass` | mbedtls/library/base64.c:208-223 | the 32-bit accumulator yields the bytes of every group of four |
| `Base64.WritesWithin` | mbedtls/library/base64.c:195-223 | the second pass writes at most the announced size, and exactly that if and only if n mod 4 is no more than the number of equal signs |
| `Base64.DecodeBuffer` | mbedtls/library/base64.c:144-228 | bytes, size needed or invalid character, never past the buffer |
| `Base64.GroupsOfEncode` | mbedtls/library/base64.c:208-223 | the second pass undoes the encoder |
| `Base64.RoundTrip` | mbedtls/library/base64.c:144-228 | an encoding cut into lines with LF or CRLF anywhere decodes to what was encoded |

## Left out

- The HTTP server, lwIP glue, certificates, self-tests and configuration headers: data, I/O or plumbing.
- Bignum with 32-bit limbs, `mod_int`, `div_int`, `shrink`, `swap`, bit access, string and binary I/O, the constant-time comparison and conditional swap, `is_prime_ext`, the small-factor table and `gen_prime`: they would add easy members or need randomness.
- Allocation failure, the limit on the number of limbs, zeroisation and constant-time behaviour: not functional correctness. Limb buffers are sequences owned by an `Mpi`, so raw pointers into one buffer appear as slices.
- MpiMul.MulHlp: the unrolled groups of 16 and 8 limbs are one loop, and the assembler versions of MULADDC are not part of this model.
- MpiAdd.SubAbs: B has no more significant limbs than the copy of A holds; otherwise the code subtracts limbs X does not have.
- MpiDiv.DivMpi: Q must differ from A and B, because the code reads their signs after it has written Q.
- MpiDiv.ModMpi: R must differ from B, which is compared with R after R has been written, and both operands hold a limb.
- ExpMod.ExpMod: X must differ from E and N, which are read after X has been written, A holds a limb, and a cache that is not empty holds R^2 mod N.
- MpiInv.InvMod: X must differ from N.
- Montgomery.MontMul: the conditions the source states in its comment: A below b^n, B at most N, scratch of 2(n + 1) limbs, no aliasing with N and T.
- MillerRabin.Test: X has a nonzero top limb, which the masking of the random base relies on; the random generator is a parameter.
- XTS key splitting, CFB, OFB, CTR and ECB loops, GCM, AES-NI and PadLock: they would only add easy members or are not C.
- Camellia and ARIA key expansion and the Camellia F function: the inversion holds for every schedule and every F. Blocks are words; byte order conversion is left out.
- ChaCha20 quarter rounds and Poly1305: functions the contexts are proved for.
- ChaChaPoly.Context.Finish: the tag of a second finish, computed by a Poly1305 context that is already finished, is not described.
- Cmac.Context.constructor: key setup and the test for cipher types other than block sizes of 8 and 16 bytes are left out.
- DerWrite.Writer.WriteMpi: for zero there has to be a byte behind the cursor, which the code reads; numbers of 2^32 - 1 bytes and more are left out.
- DerWrite.Writer.WriteAlg: identifiers and parameters of together 2^32 bytes and more are left out.
- Returned counts are numbers; the conversion of a count above 2^31 to int is left out.
- Booleans, tag masks and general callbacks of the SEQUENCE OF traversal, bit strings without unused bits and named-data lists of the ASN.1 code: no writer to compare with, or list bookkeeping.
