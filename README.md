# AES-128 in counter mode and RSA with OAEP, in Dafny

This project models the two cipher files of a small Python teaching repository.

- **AES.py** holds AES-128 after FIPS-197:
  - GF(2^8) multiplication by 1, 2 and 3;
  - the key schedule, which produces ten round keys from a 16-byte master key;
  - the four round transformations, over a 4×4 state kept as a list of columns;
  - the ten-round block cipher;
  - counter mode around the cipher: PKCS#7-style padding, a big-endian counter, splitting into and joining of 16-byte blocks, and the encrypt and decrypt loops.
- **RSA.py** holds textbook RSA:
  - the Miller–Rabin test;
  - the choice of the exponents (e is the least odd number from 3 on that is coprime to φ = (p−1)(q−1), and d = e⁻¹ mod φ);
  - `pow`-based encryption and decryption;
  - the MGF1 mask generation function over SHA3-256;
  - an OAEP encoder and decoder (block length k = 256, hash length 32, a filler of ASCII '0' bytes);
  - the RSA-OAEP compositions.

Files:

- `numbers.dfy` (`NumberTheory`): powers, modular exponentiation, gcd, the extended Euclidean algorithm and the modular inverse.
- `primes.dfy` (`Primes`): primality, Euclid's lemma, the binomial theorem and Fermat's little theorem.
- `bytes.dfy` (`Bytes`): big-endian `int.from_bytes` / `int.to_bytes`, the minimal encoding `to_bytes`, and `^` on integers.
- `aes.dfy` (`Aes`): the block cipher. Its transformations are specification functions on a 4×4 `Matrix` (a sequence of columns). The source mutates the state in place, so `addRoundKey` and `subByte` are methods over an `array2` that the source updates; `shiftRows`, `mixColumns`, `keyExpansion` and `encryptAES` are methods proved equal to those functions.
- `aes_vectors.dfy` (`AesKnownAnswer`): the worked example of FIPS-197 Appendix B and A.1, for the plaintext and key at AES.py:417-418. It states the steps without XOR against the standard's tables.
- `ctr.dfy` (`Ctr`): padding and counter mode. The block cipher is a parameter of type `BlockCipher`, so the round-trip theorems hold for any 16-byte block function; `AES` is the instance the source uses.
- `rsa.dfy` (`Rsa`): Miller–Rabin, key selection and textbook RSA, with its correctness proof.
- `oaep.dfy` (`Oaep`): MGF1, OAEP and RSA-OAEP. SHA3-256 is a parameter of type `Hash`, which is any function into 32-byte strings.

Every Python exception that the entry points can reach becomes `None` (`Option`) or `Failure` (`Result`), except the cases listed under "## Left out" (a zero RSA modulus, and MillerRabin's draw for n == 3). The entry points are encryptCTR, decryptCTR, MillerRabin, and the OAEP and RSA-OAEP functions. Examples:

- an `IndexError` when a key or counter shorter than 16 bytes reaches `encryptAES`;
- an `OverflowError` from `int.to_bytes`;
- the `ValueError` of `math.log(-1)` in `MillerRabin(1)`.

Some helpers instead require what every caller in the two files supplies; each is listed under "## Left out". Randomness enters as parameters: the CTR nonce, the Miller–Rabin bases, the OAEP seed, and the primes p and q.

## Model

| member | source | states |
|---|---|---|
| NumberTheory.ModPowIsPow | RSA.py:51-58 | three-argument `pow(b, e, n)` computed by square-and-multiply equals b^e mod n |
| NumberTheory.ModPow | RSA.py:51-58 | three-argument `pow(b, e, n)` as square-and-multiply; its result is below n, and ModPowIsPow gives its value |
| NumberTheory.Gcd | RSA.py:108 | `math.gcd` by Euclid's algorithm; no contract of its own: GcdDivides and GcdGreatest state that it is the greatest common divisor |
| NumberTheory.GcdDivides | RSA.py:108 | gcd(a, b) is positive and divides both a and b, unless both are 0 |
| NumberTheory.GcdGreatest | RSA.py:108 | every common divisor of a and b divides gcd(a, b) |
| NumberTheory.CoprimeIffNoCommonDivisor | RSA.py:108 | `math.gcd(e, phi) == 1` exactly when 1 is the only common divisor of e and phi (both directions) |
| NumberTheory.BezoutIdentity | RSA.py:112 | the extended Euclidean coefficients satisfy a·x + b·y == gcd(a, b) |
| NumberTheory.ModInverse | RSA.py:112 | `pow(e, -1, phi)` for e coprime to phi lies in [0, phi) |
| NumberTheory.ModInverseInverts | RSA.py:112 | d = `pow(e, -1, phi)` satisfies d·e ≡ 1 (mod phi) |
| Bytes.ToFixedBytes | RSA.py:176 | `x.to_bytes(n, 'big')` succeeds exactly when x < 256^n, and then gives n bytes whose big-endian value is x |
| Bytes.ToBytes | RSA.py:6-10 | `to_bytes(x)` has the minimal length ByteLength(x); ToBytesValue, ToBytesLeadingByte and ToBytesOfFromBytes give its value and its inverse |
| Bytes.FromBytesBound | RSA.py:175 | `int.from_bytes` of n bytes is below 256^n |
| Bytes.DigitsOfFromBytes | RSA.py:176 | writing `int.from_bytes(s)` back at width \|s\| gives s again |
| Bytes.FromBytesInjective | RSA.py:175 | two byte strings of one length with the same value are equal |
| Bytes.LeadingZero | RSA.py:247 | a leading zero byte does not change the value |
| Bytes.ByteLengthBounds | RSA.py:6-10 | the minimal length n satisfies 256^(n−1) ≤ x < 256^n (n > 1) |
| Bytes.ByteLengthFromBits | RSA.py:10 | the length of `to_bytes(x)` is `max(1, ceil(x.bit_length() / 8))` |
| Bytes.ToBytesValue | RSA.py:6-10 | `to_bytes(x)` has value x |
| Bytes.ToBytesLeadingByte | RSA.py:6-10 | `to_bytes(x)` of a positive x has no leading zero byte |
| Bytes.ToBytesOfFromBytes | RSA.py:6-10 | `to_bytes(int.from_bytes(s))` == s exactly for s without a leading zero byte (or one byte long) |
| Bytes.ByteLengthOfPow | AES.py:316 | 256^n needs n + 1 bytes, so a counter that overflows its width grows by one byte |
| Bytes.XorIntInvolution | RSA.py:175 | (a ^ b) ^ b == a on integers |
| Bytes.XorIntByteBound | RSA.py:175-176 | the XOR of two values below 256^n is below 256^n, so the masked DB fits its width |
| Bytes.XorIntComm | RSA.py:207 | integer `^` is commutative |
| Bytes.XorIntAssoc | RSA.py:212 | integer `^` is associative |
| Aes.GaloisMul | AES.py:84-103 | `galoisMul(a, b)` for b in {1, 2, 3} equals the reference shift-and-add product in GF(2^8) |
| Aes.GfMulSmall | AES.py:93-103 | the reference product by 1 is a, by 2 is xtime(a), by 3 is a ^ xtime(a) |
| Aes.XTimeDoubles | AES.py:97-100 | xtime doubles a byte below 128 (no reduction by 0x1B) |
| Aes.XorBytes | AES.py:349-358 | `xorBytes` has the length of its first argument |
| Aes.XorBytesTwice | AES.py:349-358 | XORing twice with the same bytes gives the input back |
| Aes.XorBytesAssoc | AES.py:349-358 | byte-wise XOR is associative |
| Aes.RotWord | AES.py:105-117 | `rotWord` keeps the column length; its contents are stated by RotWordIsSubRot |
| Aes.RotWordIsSubRot | AES.py:105-117 | `rotWord` is SubWord(RotWord(column)) of FIPS-197 section 5.2 |
| Aes.MatrixToList | AES.py:70-82 | `matrixToList` gives 16 bytes; its contents are stated by ListMatrixRoundTrip and MatrixListRoundTrip |
| Aes.ListToMatrix | AES.py:56-68 | `listToMatrix(l, 4, mode)` makes columns (mode 0) or rows (mode 1) from groups of four bytes; no contract of its own: its meaning is ListMatrixRoundTrip and MatrixListRoundTrip |
| Aes.ListMatrixRoundTrip | AES.py:56-82 | `matrixToList(listToMatrix(l, 4, mode), 4, mode)` is the first 16 bytes of l, for both modes |
| Aes.MatrixListRoundTrip | AES.py:56-82 | `listToMatrix(matrixToList(m, 4, mode), 4, mode)` == m, for both modes |
| Aes.XPowValues | AES.py:28-35 | the powers of x in GF(2^8) are 01, 02, 04, …, 80, 1B, 36 |
| Aes.RconIsPower | AES.py:28-35 | row i of RCON is (x^i, 0, 0, 0), as FIPS-197 section 5.2 defines Rcon |
| Aes.NewColumn | AES.py:137-155 | each new key column has four bytes; NewColumnWords and FirstColumnWord state its contents as FIPS-197 words |
| Aes.ExpandKey | AES.py:119-162 | the key schedule yields N_ROUNDS = 10 round keys; KeyScheduleWords states their contents |
| Aes.KeyScheduleWords | AES.py:119-162 | column c of round key r is word 4(r+1)+c of the FIPS-197 section 5.2 expansion (w[i] = w[i−4] ^ w[i−1], with SubWord(RotWord) ^ Rcon every fourth word) |
| Aes.NewColumnWords | AES.py:137-155 | each column built in the inner loop is the corresponding FIPS-197 word |
| Aes.FirstColumnWord | AES.py:139-147 | the first column of a round key is w[i−4] ^ SubWord(RotWord(w[i−1])) ^ Rcon |
| Aes.NextRoundKey | AES.py:133-157 | one pass of the outer key-schedule loop computes the next round key from the previous one |
| Aes.KeyExpansion | AES.py:119-162 | `keyExpansion` returns exactly the ten-key schedule ExpandKey |
| Aes.AddRoundKey | AES.py:164-174 | the state array is replaced in place by its XOR with the round key |
| Aes.NewState | AES.py:239 | a fresh 4×4 state array holding the given matrix, the in-place state the round steps update |
| Aes.RoundKeyTwice | AES.py:164-174 | adding a round key twice restores the state |
| Aes.SubByte | AES.py:176-184 | every cell of the state array is replaced in place by its S-box image |
| Aes.ShiftRows | AES.py:186-203 | the returned state is the old one with row r rotated left by r |
| Aes.ShiftedRows | AES.py:198-203 | after shiftRows, cell (c, r) holds old cell ((c + r) mod 4, r), and row 0 is unchanged |
| Aes.ShiftedInverse | AES.py:186-203 | shiftRows has an inverse (rotate row r right by r) on both sides, so it loses nothing |
| Aes.RotateLeft | AES.py:201 | `row[i:] + row[:i]` puts row[(c + i) mod 4] at position c |
| Aes.MixColumns | AES.py:205-225 | the returned state is each column multiplied by GF_MATRIX over GF(2^8) |
| Aes.Cipher | AES.py:227-261 | the block cipher gives a 16-byte block; its round structure is composed from the round steps that AddRoundKey, SubByte, ShiftRows and MixColumns are proved to compute |
| Aes.EncryptAES | AES.py:227-261 | `encryptAES` is the initial AddRoundKey with the master key, nine full rounds, and a final round without MixColumns |
| AesKnownAnswer.AppendixBInput | AES.py:56-68 | the plaintext 3243f6a8…0734 of AES.py:417 becomes the "Input" state of FIPS-197 Appendix B |
| AesKnownAnswer.AppendixBKey | AES.py:56-68 | the key 2b7e1516…4f3c of AES.py:418 becomes round key 0 of FIPS-197 Appendix B |
| AesKnownAnswer.AppendixBOutput | AES.py:70-82 | the "Output" state of FIPS-197 Appendix B reads back as 3925841d02dc09fbdc118597196a0b32 |
| AesKnownAnswer.AppendixBSubBytesShiftRows | AES.py:176-203 | in each of the ten rounds of FIPS-197 Appendix B, `subByte` and `shiftRows` turn the listed "Start of Round" state into the listed "After SubBytes" and "After ShiftRows" states |
| AesKnownAnswer.AppendixASubWord | AES.py:105-117 | for each of the ten words temp = w[i−1] (i = 4, 8, …, 40) of FIPS-197 Appendix A.1, `rotWord` gives the listed "After SubWord" word |
| Ctr.Padding | AES.py:263-277 | the padded length is a multiple of 16, longer than the input by 1..16 bytes; the input is a prefix, and every pad byte equals the pad length |
| Ctr.Unpadding | AES.py:279-291 | fails exactly on empty input; otherwise it returns a prefix that drops the number of bytes the last byte names, or the empty string when that byte is 0 or too large |
| Ctr.UnpaddingPadding | AES.py:263-291 | `unpadding(padding(p)) == p` for every p |
| Ctr.IncreaseCounter | AES.py:303-316 | the new counter has the minimal length of value + 1 |
| Ctr.IncreaseCounterValue | AES.py:303-316 | the new counter's value is the old value plus one, and its first byte is nonzero |
| Ctr.IncreaseCounterLength | AES.py:316 | its length is `max(1, ceil(bit_length / 8))` of the new value |
| Ctr.CounterGrows | AES.py:316 | an all-0xFF counter grows by a byte |
| Ctr.CounterShrinks | AES.py:316 | a counter with leading zero bytes whose value + 1 fits in fewer bytes comes back shorter |
| Ctr.CounterKeepsLength | AES.py:316 | a counter with a nonzero first byte that does not overflow keeps its length |
| Ctr.CounterAtStep | AES.py:384 | incrementing the i-th counter gives the (i+1)-th |
| Ctr.CounterAtLength | AES.py:376-384 | from a 16-byte iv with a nonzero first byte, every counter has at least 16 bytes |
| Ctr.Blocks | AES.py:318-332 | there are len / 16 blocks, each of 16 bytes; ConcatBlocks and BlocksOfConcat state their contents |
| Ctr.SplitIntoBlocks | AES.py:318-332 | the loop builds exactly Blocks(plaintext) |
| Ctr.ConcatLength | AES.py:334-347 | joining n 16-byte blocks gives 16n bytes |
| Ctr.ConcatBlocks | AES.py:318-347 | joining the first n blocks gives the first 16n bytes |
| Ctr.BlocksOfConcat | AES.py:318-347 | splitting joined 16-byte blocks gives the blocks back |
| Ctr.Union | AES.py:334-347 | `unionBlocks` fails exactly on an empty list; otherwise it is the concatenation, which BlocksOfConcat inverts |
| Ctr.UnionBlocks | AES.py:334-347 | the loop computes Union |
| Ctr.AesBlock | AES.py:380 | the keystream block is `encryptAES(counter, key)` whenever both have at least 16 bytes |
| Ctr.CtrBlocks | AES.py:374-384 | the block loop succeeds exactly when the key and every counter it reaches have at least 16 bytes, and returns as many 16-byte blocks as it got |
| Ctr.CtrLoop | AES.py:375-384 | the loop with its updated counter computes CtrBlocks with AES |
| Ctr.CtrEncrypt | AES.py:360-387 | `encryptCTR`: pad, split, run the block loop, join; no contract of its own: CtrEncryptLength and CtrRoundTrip state what it gives |
| Ctr.CtrDecrypt | AES.py:389-414 | `decryptCTR`: split, run the block loop, join, unpad; no contract of its own: CtrDecryptShort and CtrRoundTrip state what it gives |
| Ctr.EncryptCTR | AES.py:360-387 | `encryptCTR` computes CtrEncrypt with AES |
| Ctr.DecryptCTR | AES.py:389-414 | `decryptCTR` computes CtrDecrypt with AES |
| Ctr.CtrEncryptLength | AES.py:360-387 | encryption succeeds exactly when the keystream is defined for \|p\|/16 + 1 blocks, and then has that many 16-byte blocks |
| Ctr.CtrDecryptShort | AES.py:389-414 | a ciphertext shorter than a block fails (no blocks reach `unionBlocks`) |
| Ctr.CtrBlocksTwice | AES.py:377-411 | running the block loop twice with the same key and iv gives the blocks back |
| Ctr.CtrRoundTrip | AES.py:360-414 | whenever `encryptCTR` succeeds, `decryptCTR` of its output gives the plaintext back, for any block cipher |
| Ctr.CtrRoundTripFreshIv | AES.py:360-414 | with a 16-byte key and a 16-byte iv whose first byte is nonzero, encryption succeeds and decrypts to the plaintext |
| Ctr.CtrShortCounterFails | AES.py:316 | as written: an iv whose value + 1 fits in 15 bytes (e.g. 16 zero bytes) makes every plaintext of 16 bytes or more fail |
| Ctr.SecondCounterShort | AES.py:316 | such an iv's second counter is shorter than 16 bytes |
| Ctr.IncreaseCounterFixed | AES.py:303-316 | corrected: the increment keeps the counter width and wraps modulo 256^width |
| Ctr.CtrBlocksFixed | AES.py:374-384 | corrected loop: succeeds exactly when there are no blocks or the key and iv have 16 bytes |
| Ctr.CtrFixedRoundTrip | AES.py:360-414 | corrected: with a 16-byte key and any 16-byte iv, encryption succeeds and decrypts to the plaintext |
| Rsa.Decompose | RSA.py:28-38 | n − 1 == 2^r · d with d odd |
| Rsa.DecomposeUnique | RSA.py:28-38 | that split is unique |
| Rsa.OddCofactor | RSA.py:33-38 | the largest power of two the doubling loop finds leaves an odd cofactor |
| Rsa.FactorTwos | RSA.py:30-38 | the doubling loop and `n1 // pow2r` give r ≥ 1 and d with n − 1 == 2^r · d, d odd |
| Rsa.SquareStep | RSA.py:58 | squaring modulo n steps from a^(d·2^t) to a^(d·2^(t+1)) |
| Rsa.StrongLiar | RSA.py:51-62 | base a lets n pass one round: a^d ≡ 1 or a^(d·2^j) ≡ −1 (mod n) for some j < r; no contract of its own: MillerRabin's verdict is stated through it, and PrimeHasNoWitness shows every base is one for a prime |
| Rsa.MillerRabin | RSA.py:12-69 | even n gives False; n == 1 raises; odd n ≥ 3 gives True exactly when every base is a strong liar (a^d ≡ 1, or a^(d·2^j) ≡ −1 for some j < r) |
| Rsa.SquareChain | RSA.py:51-62 | modulo a prime, the chain of squarings from b reaches 1 only through 1 or −1 |
| Rsa.PrimeHasNoWitness | RSA.py:41-69 | every base in [1, n) is a strong liar for an odd prime n |
| Rsa.PrimePassesMillerRabin | RSA.py:12-69 | an odd prime passes the test for every choice of bases, so the test gives no false negatives |
| Rsa.OddCoprimeBoundCoprime | RSA.py:107-109 | an odd number coprime to phi exists (phi + 1 or 2·phi + 1), so the search for e terminates |
| Rsa.LeastOddCoprime | RSA.py:107-109 | the search returns the least odd e ≥ 3 with gcd(e, phi) == 1 |
| Rsa.SearchStep | RSA.py:108-109 | an odd e that shares a factor with phi is passed over without overshooting the bound |
| Rsa.RsaKeys | RSA.py:92-113 | both keys have modulus p·q; e is the least odd coprime to (p−1)(q−1); d < (p−1)(q−1) and d·e ≡ 1 modulo it |
| Rsa.RsaCypher | RSA.py:115-123 | the cyphertext is message^e mod n, below n |
| Rsa.RsaDecypher | RSA.py:125-133 | the plaintext is cypher^d mod n, below n |
| Rsa.RsaCorrect | RSA.py:92-133 | for distinct primes and keys as RSAKeys builds them, decryption undoes encryption on every message below n |
| Rsa.RsaExponent | RSA.py:112-133 | m^(1 + k·(p−1)(q−1)) ≡ m (mod p·q) for every m < p·q |
| Rsa.CrtCombine | RSA.py:104 | a value congruent to m modulo both primes is congruent to m modulo n = p·q |
| Primes.PrimeCoprime | RSA.py:108 | gcd(a, p) == 1 for a prime p that does not divide a |
| Primes.EuclidLemma | RSA.py:104 | a prime dividing a product divides a factor |
| Primes.ProductOfPrimesDivides | RSA.py:104 | two distinct primes that both divide x make p·q divide x |
| Primes.PrimeDividesBinom | RSA.py:123 | p divides C(p, i) for 0 < i < p |
| Primes.BinomialTheorem | RSA.py:123 | (a + 1)^n is the sum of the binomial coefficients times powers of a |
| Primes.FreshmansDream | RSA.py:123 | (a + 1)^p ≡ a^p + 1 (mod p) |
| Primes.FermatLittle | RSA.py:123 | a^p ≡ a (mod p) for a prime p |
| Primes.FermatUnit | RSA.py:123 | a^(p−1) ≡ 1 (mod p) when p does not divide a |
| Primes.SquareRootOfOne | RSA.py:51-62 | modulo a prime the only square roots of 1 are 1 and −1 |
| Primes.FermatPower | RSA.py:123-133 | m^(1 + k(p−1)) ≡ m (mod p) for every m |
| Oaep.MaskBlocks | RSA.py:143-146 | `count` digests give 32·count bytes |
| Oaep.Mask | RSA.py:135-147 | `mgf1(seed, size)` has exactly size bytes |
| Oaep.BlockCountLeast | RSA.py:143 | the loop stops after the fewest digests that cover size bytes |
| Oaep.Mgf1 | RSA.py:135-147 | the loop returns Mask(H, seed, size) |
| Oaep.MaskBlocksStep | RSA.py:144-146 | one more round appends `H(seed + to_bytes(counter))` |
| Oaep.MaskOfBlocks | RSA.py:147 | the cut `output[:size]` is the mask |
| Oaep.MaskBlocksIndex | RSA.py:135-147 | byte i of the stream is byte i mod 32 of `H(seed + to_bytes(i div 32))` |
| Oaep.MaskIndex | RSA.py:135-147 | the same for every byte of `mgf1(seed, size)` |
| Oaep.MaskPrefix | RSA.py:135-147 | a shorter mask is a prefix of a longer one from the same seed |
| Oaep.MaskDb | RSA.py:167-185 | when both `to_bytes` calls fit, EM has k bytes and starts with 0x00 |
| Oaep.OaepEncode | RSA.py:150-185 | `OAEPCypher` output has k > 32 bytes and a leading 0x00 |
| Oaep.OaepCypher | RSA.py:150-185 | the procedure, calling mgf1 twice, computes OaepEncode |
| Oaep.FillerEnd | RSA.py:219-221 | the scan stops at the first non-'0' byte or at the end, and everything it passed is '0' |
| Oaep.FillerEndFrom | RSA.py:219-221 | the scan stops exactly at the first non-filler byte |
| Oaep.ParseDbAccepts | RSA.py:229-236 | a DB with the expected hash and a non-filler byte returns what follows that byte |
| Oaep.ParseDataBlock | RSA.py:162-165 | parsing lHash ‖ '0'* ‖ 0x01 ‖ M against lHash gives M |
| Oaep.ParseDataBlockOtherHash | RSA.py:229-231 | parsing against another label hash gives None |
| Oaep.RecoverDb | RSA.py:195-213 | the unmasking steps, calling mgf1, compute Unmask |
| Oaep.OaepDecypher | RSA.py:187-236 | the decoder with its scanning loop computes OaepDecode |
| Oaep.OaepDecode | RSA.py:187-236 | an accepted DB starts with the label's hash, and the message comes after that hash and at least one more byte; OaepRoundTrip and OaepOtherLabel give its partner facts |
| Oaep.EncodedFields | RSA.py:199-201 | slicing EM recovers maskedSeed and maskedDB |
| Oaep.UnmaskFields | RSA.py:203-212 | unmasking EM uses exactly the seed mask of maskedDB and the DB mask of the recovered seed |
| Oaep.MaskDbFields | RSA.py:167-185 | the encoder's EM is 0x00 ‖ maskedSeed ‖ maskedDB with both masks as MGF1 defines them |
| Oaep.UnmaskMaskDb | RSA.py:167-212 | unmasking an encoded block gives back the value of DB |
| Oaep.OaepEncodeDefined | RSA.py:150-185 | the encoder succeeds whenever \|M\| + 66 ≤ k and the seed is below 2^256 |
| Oaep.OaepEncodeMasks | RSA.py:150-185 | a successful encoding consists of the masked fields of the data block |
| Oaep.OaepRoundTrip | RSA.py:150-236 | `OAEPDecypher(OAEPCypher(M, L), L) == M` when the label hash's first byte is nonzero |
| Oaep.OaepOtherLabel | RSA.py:229-231 | decoding with a label of a different hash fails |
| Oaep.OaepLeadingZeroHashFails | RSA.py:213 | as written: if H(L) starts with 0x00, decoding its own encoding fails |
| Oaep.OaepFixedRoundTrip | RSA.py:150-236 | corrected: with DB recovered at full width, decoding gives M for every label |
| Oaep.RsaOaepCypher | RSA.py:238-249 | the RSA-OAEP cyphertext, when defined, has k bytes |
| Oaep.RsaOaepDecypher | RSA.py:251-261 | `RSAOAEPDecypher` as written, with the label dropped; no contract of its own: RsaOaepRoundTrip and RsaOaepLabelIgnored state what it gives |
| Oaep.PrimeKeysInvert | RSA.py:92-133 | keys built like RSAKeys from distinct primes with a 256-byte modulus invert each other on every value below n |
| Oaep.RsaLayerRoundTrip | RSA.py:238-261 | encrypting a 256-byte block that starts with 0x00 and decrypting it gives the block back at width k |
| Oaep.RsaOaepRoundTrip | RSA.py:238-261 | `RSAOAEPDecypher(RSAOAEPCypher(M, pk), sk) == M` with the default label, when its hash does not start with 0x00 |
| Oaep.RsaOaepLabelIgnored | RSA.py:261 | as written: with a label L whose hash differs from that of the empty label, decryption of its own cyphertext fails |
| Oaep.RsaLayerLosesLargeBlock | RSA.py:238-261 | as written: a 256-byte block whose value is at least the modulus does not come back from the RSA layer |
| Oaep.SmallModulusBlock | RSA.py:85 | for a modulus below 256^255, the modulus written in 256 bytes is such a block and starts with 0x00 like an OAEP block |
| Oaep.FullWidthPrimesInvert | RSA.py:96-104 | corrected: keys built from two distinct primes of exactly 1024 bits invert each other on every OAEP block (KeysInvert) |
| Oaep.RsaOaepFixedRoundTrip | RSA.py:238-261 | corrected: with the label passed on and DB recovered at full width, decryption gives M for every label |

## Left out

- Randomness and prime generation are not modelled; the random values enter as parameters:
  - `getNonce` (AES.py:293-301) and `genPrime` (RSA.py:71-90) are left out;
  - the CTR iv, the Miller–Rabin bases, the OAEP seed value, and the primes p and q are parameters.
- SHA3-256 is not modelled. `Hash` stands for it: any function into 32-byte strings. The round trips hold for every such function.
- The label's `str.encode()` (UTF-8) is not modelled: labels are given as their encoded bytes.
- Printing is not modelled: `printHex`, the `print` before OAEP's `return None`, the commented-out protocol functions of RSA.py, and the driver script.
- Floating point is not modelled:
  - `math.log(pow2r, 2)` in MillerRabin is taken to give the exact r;
  - `math.ceil(x / 8)` in `to_bytes` is taken as integer ceiling division.
- Aes.Cipher, Aes.EncryptAES: the FIPS-197 Appendix B known answer (ciphertext 3925841d02dc09fbdc118597196a0b32 for the vector at AES.py:417-418) is not proved, because evaluating the ten rounds on constant bytes makes the verifier unfold the bit-by-bit definition of `^` for about 1,500 byte XORs, and a single XOR of two constant bytes already takes a large share of the budget one proof may use. What is proved instead:
  - AesKnownAnswer checks, against the tables of Appendix B and A.1, the byte layout of input, key and output, SubBytes and ShiftRows in every round, and SubWord(RotWord) in the key expansion;
  - the steps with XOR (AddRoundKey, MixColumns, the key schedule) are tied to FIPS-197 for all inputs by the contracts of Aes.AddRoundKey, Aes.MixColumns, Aes.GaloisMul and Aes.KeyScheduleWords.
- The S-box's bijectivity is not proved. The S-box and GF_MATRIX are given as tables.
- No decryption direction of the AES block cipher exists in the source, and none is modelled. ShiftedInverse and RoundKeyTwice are the only inverse facts stated.
- Aes.ListToMatrix: modelled for the n = 4 the source always passes, not for general n.
- Aes.AddRoundKey, Aes.SubByte, Aes.ShiftRows, Aes.MixColumns: the source loops over `len(state)`; the model requires the state to be 4×4 (`IsState`), which is the only size that ever reaches them.
- Aes.GaloisMul: requires b in {1, 2, 3}, the domain its docstring gives; the source returns None for any other b, and mixColumns only passes GF_MATRIX entries, which are all 1, 2 or 3.
- Ctr.AesBlock: returns a zero block where encryptAES would raise. Counter mode never reaches that case: CtrBlocks fails first, and KeystreamDefined states when.
- Rsa.MillerRabin: for n == 3, `random.randrange(2, 2)` raises in the source. The model asks for bases in [2, n−1), so for n == 3 the base list must be empty. The model does not state the 4^−certainty error bound for composites.
- Rsa.MillerRabin: the verdict for an odd composite is stated through StrongLiar. Which composites are detected depends on the bases drawn.
- Rsa.RsaCypher, Rsa.RsaDecypher: require a positive modulus. `pow(m, e, 0)` raises in Python, and every key RsaKeys builds has a modulus of at least 4.
- Oaep.RsaOaepCypher, Oaep.RsaOaepDecypher, Oaep.RsaOaepDecypherFixed: require a positive modulus, for the same reason: they call RSACypher and RSADecypher, whose `pow` raises ValueError on a zero modulus; the keys come from RSAKeys, whose modulus is at least 4.
- Rsa.LeastOddCoprime: requires phi ≥ 1. RSAKeys computes phi = (p−1)(q−1), which is at least 1 for p, q ≥ 2.
- Rsa.FactorTwos: requires an even positive n − 1. MillerRabin calls it only for odd n ≥ 3: even n returns False first, and n == 1 (where the source's loop finds no power of two and `math.log(-1)` raises) is None.
- Rsa.RsaKeys: requires p, q ≥ 2. genPrime returns odd numbers of at most 1024 bits that pass MillerRabin, so they are at least 3. p ≠ q is assumed only where correctness needs it (Rsa.RsaCorrect).
- Oaep.OaepRoundTrip, Oaep.RsaOaepRoundTrip: require |M| + 66 ≤ k and a seed value below 2^256, as `secrets.randbits(256)` guarantees. RSA-OAEP also requires the modulus to occupy all 256 bytes (KeysInvert). Primes of exactly 1024 bits give such a modulus (FullWidthPrimesInvert).
- Moduli from RSAKeys below 256^255 are not covered by the RSA-OAEP round trips. genPrime's `secrets.randbits(1024)` may have zero top bits, which gives such moduli. RsaLayerLosesLargeBlock shows that blocks at or above such a modulus are lost.
- Aes.Cipher, Aes.EncryptAES, Aes.ExpandKey, Aes.KeyExpansion: require 16-byte inputs. `listToMatrix` raises IndexError on shorter ones (AES.py:68). Counter mode turns that case into Failure before calling them.
- Aes.ListToMatrix: requires at least 16 bytes, for the same reason.
- Aes.XorBytes: requires the second argument to be at least as long as the first. `xorBytes` raises IndexError otherwise, and counter mode always passes a 16-byte block and a 16-byte keystream.
- Aes.RotWord: requires a non-empty column. The key schedule always passes four bytes.
- NumberTheory.ModInverse: requires gcd(e, m) == 1. `pow(e, -1, phi)` raises ValueError otherwise, and RSAKeys only calls it after its search loop has made e coprime to phi.
- Oaep.RsaOaepDecypher: the decoder works at the default k = 256 whatever k is passed, as the source does.

## Findings

| source | as written | input that shows it | evidently intended | confidence | as-written member | corrected member |
|---|---|---|---|---|---|---|
| AES.py:316 | `increaseCounter` re-encodes the counter at its minimal length, so a counter with leading zero bytes shrinks and `encryptAES` raises IndexError on the short counter | iv = 16 zero bytes and any plaintext of 16 bytes or more: the second counter is the single byte 0x01 | a fixed-width 128-bit counter that wraps modulo 2^128, as in section 6.5 of NIST SP 800-38A | not executed | Ctr.CtrShortCounterFails | Ctr.CtrFixedRoundTrip |
| RSA.py:213 | `OAEPDecypher` recovers DB with `to_bytes`, which drops leading zero bytes, so the label hash is compared at the wrong offset | any label L whose SHA3-256 digest starts with 0x00 (about one label in 256): decoding the encoding of any message fails | DB written back at its full width k − hLen − 1, as I2OSP does in section 7.1.2 of RFC 8017 | not executed | Oaep.OaepLeadingZeroHashFails | Oaep.OaepFixedRoundTrip |
| RSA.py:261 | `RSAOAEPDecypher` does not pass its label to `OAEPDecypher`, which then checks against the hash of the empty label | any label L with SHA3-256(L) ≠ SHA3-256(b"") given to both RSAOAEPCypher and RSAOAEPDecypher: decryption fails | the label passed on to the decoder | not executed | Oaep.RsaOaepLabelIgnored | Oaep.RsaOaepFixedRoundTrip |
| RSA.py:85 | `genPrime` draws `secrets.randbits(1024)` without setting the top bit, so p·q can fall below 256^255. An OAEP block at or above that modulus is reduced by RSACypher, and RSAOAEPDecypher cannot recover it | primes p, q whose product is below 2^2040, and an encoded block whose value is at least p·q, such as the modulus itself written in 256 bytes | primes of exactly 1024 bits and a 2048-bit modulus, as the documentation at RSA.py:96-98 states | not executed | Oaep.RsaLayerLosesLargeBlock | Oaep.FullWidthPrimesInvert |
