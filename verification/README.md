# OpenPGP.js, modelled and proved in Dafny

This project models the self-contained logic of OpenPGP.js and proves what that logic is for. The block
cipher, the hash and the random source stay abstract; everything around them is written out as the
JavaScript does it, with its loops, buffers, 32-bit words and error branches. `dafny verify dfyconfig.toml`
checks all of it.

| Files | What they model |
|---|---|
| `BigInteger`, `Random`, `Pkcs1`, `Rsa`, `ElGamal`, `Dsa`, `Prime`, `Composites` | public-key arithmetic, end to end |
| `Shifts`, `Ocb`, `OcbTweaks`, `Cfb`, `AesKw` | the cipher modes, over any block permutation or block function |
| `Aead` | the chunk loop of the AEAD-encrypted data packet |
| `Packet`, `PacketList`, `Key`, `KeyPlaces` | framing, printing and parsing |
| `Crc24`, `Eol` | fast and streaming forms against simple definitions |
| `NumberTheory`, `Primes`, `Bytes`, `Bits`, `Util`, `Streams`, `Readers`, `BlockCiphers`, `Results` | what the others stand on |

How to read it. A method with a loop follows the source statement by statement and is proved against a
function that says what it computes (`Encrypted`, `Canonical`, `Sealed`, `Parse`, ...). The lemmas then prove
what the source promises about that function, mostly against a second definition of its own:
tweaks instead of running offsets, positions instead of a state machine, lines instead of a scan. A stream is a sequence of chunks and an end; a result that is
stated for `Flatten(chunks)`, or for what a `Reader` has left, does not depend on how the data is cut. Random
octets are parameters, as the number they spell; what is drawn from them, and where drawing fails, is modelled.
A thrown error is an `Err`; results are stated for the erroneous arguments too (a zero modulus, a number without
an inverse, a length that does not fit).

## Main results

- RSA decryption with blinding and the two primes is textbook decryption, and gives back every message
  of at most `byteLength(n) - 11` octets; where the blinding value drawn is not coprime to `n` it fails.
- Miller-Rabin accepts an odd `n` exactly when every base passes the strong test. At most half of the bases below
  an odd composite number pass, and less than half of those that can be drawn. `isProbablePrime` is described
  for every number; a number above 3 is accepted whatever is drawn exactly if it is prime and passes the
  check of the exponent. For 3 it throws.
- For every `q`, DSA verification accepts exactly the parts in range whose signing equation has a nonce for a
  solution with the first part for its power, the hash entering by its leftmost bits. The octets that signing
  returns are accepted if their second part is coprime to `q`, as it always is for a prime `q`, and fail with the
  inverse error otherwise. ElGamal decrypts what it encrypts.
- `modExp`, `_egcd`, `modInv`, `gcd`, `getBit`, `bitLength`, `byteLength` and `toUint8Array` compute the power,
  a Bezout combination, the unique inverse, the divisor with its sign, the binary digit and the lengths, for
  negative numbers too, and the octets of a natural number.
- A random factor of RSA's blinded check decides `de = 1 mod p - 1` for all exponents exactly if it is below and
  coprime to `p - 1`. For odd primes, `validateParams` accepts exactly the valid exponents if and only if its
  factor is so for both.
- OCB is the mode of section 4.2 of RFC 7253: after any sequence of calls every mask in the table is `E(0)`
  doubled in the field of 2^128 elements, every mask a call needs is there, and the stretch-and-shift is the
  128-bit window. A ciphertext opens to `P` exactly when it is `P` sealed. In closed form, each part of text and
  data goes through the cipher under a tweak of its own, given by a Gray code; so the tag changes with
  each single block and rest of either.
- The chunked AEAD format is read and written correctly for every length and chunk size. Decryption accepts
  exactly what encryption writes, and one more form (below). Two chunks of a packet share a nonce exactly
  when their numbers agree modulo 2^32. Chunks of other packets or places, and ends of other texts, are refused
  unless the mode itself confuses two nonces or associated data.
- Packet lists are read back as written, under every cutting into non-empty chunks, exactly if they are not
  empty and the last length of each packet is below 2^31. Partial lengths conserve the octets and have the
  sizes the standard allows. A packet that breaks off is an error, except exactly at the places named below.
  Old-format packets are read back too.
- The structure of a key is told by the positions of its packets: for every list, which packets count, which
  of them is refused first and why, and else where each goes. The printed key holds exactly those that have a place.
- A key's printed form parses to the same structure and prints the same again, whatever list it came from;
  printing invents and duplicates no packet.
- Behind an unparseable key packet of each of the four kinds the list is parsed as if it resumed at the first
  packet that ends the skipping.
- AES key unwrap returns `P` exactly for the string that wraps `P`. Keys of `k` octets come back from every cipher
  exactly if 8 divides `k`, among the multiples of 4 that the code takes. The two versions of the standard, with
  indices and with shifts, agree.
- Streaming CFB is one-shot CFB under every cutting, and CFB by way of CBC is CFB.
- The slicing-by-4 CRC-24 is the bit-at-a-time CRC, which shows every single wrong octet. The line-ending converters are
  the one-shot maps, line by line.

## Where code and expectation part

- `validateParams` of RSA: the blinded check of one exponent passes exactly when `r < p - 1` and `p - 1`
  divides `r(de - 1)`, which is the relation for all exponents exactly if `r` is also coprime to `p - 1`
  (`BlindedCheckDecidesIff`). With `r = 2`, `p = 7`, `q = 11`, `e = 2`, `d = 8` it passes a key that does not
  decrypt. No even `r` decides for an odd prime. The comment in the source gives a range for `r` that is half the
  one drawn (rsa.js:229).
- `millerRabin` shifts out no bit for an even `n` and then accepts it; `isProbablePrime` is saved by
  Fermat's test. For `n = 1` its bit loop looks for a bit of zero, and zero has none (`ZeroBits`). Without a
  generator there is no base to draw below 4, and it throws; so `isProbablePrime` throws for the prime 3, and an
  odd prime is accepted exactly if it is not 3 (`PrimesAreAcceptedIff`).
- `divisionTest` compares an object with a number and rejects nothing.
- DSA keeps the leftmost octets of the hash, as many as `q` has, where the comment asks for bits
  (dsa.js:58-63). The two agree exactly if the length of `q` in bits is a multiple of eight, or the hash has no
  more bits than `q`, or the octets kept are all zero (`OctetsAreBitsIff`); for `q = 5` and the hash `[255]` they
  are 0 and 2 modulo `q` (`OctetsAreNotBits`).
- `createcrc24` makes a word view at the chunk's offset, which throws unless the offset is a multiple of 4.
- `nativeEOL` after `canonicalizeEOL` returns a text exactly when it holds no CR LF pair.
- `shiftRight` is documented for fewer than 8 bits; OCB calls it with 8, where it still shifts correctly.
- The AEAD chunk loop writes 32-bit fields where the format has 64-bit ones; they agree exactly below 2^32.
  It also accepts an empty chunk before the final tag where the last chunk is full.
- Packet lengths are read with a signed shift: a body of 2^31 octets or more is written but not read back.
  The empty packet list is written as nothing, and nothing is not a packet list.
- A packet that is cut off is read as complete, holding its whole parts, exactly if it is cut right behind a part
  or within its last length, where that then reads as nothing: after the first octet of two, or after the 255
  and any zeros of five (`CutOffIff`). So a definite packet cut there is read as empty. Elsewhere it is an error.
- Reading a single octet from an empty chunk gives none, as at the end, though more may follow. So the parser does
  not read all streams of the same octets alike: an empty chunk behind the first `k` octets leaves every packet
  list as it is exactly if `k < 2` (`GapMattersIff`), because two octets are peeked at first. Without empty chunks
  the cutting never matters.
- AES key wrap accepts lengths of 8k + 4. Wrapping pairs the words from the front, reads the partner of the last
  one as zero and loses its store; unwrapping pairs them from the back. For every such length there are a cipher and
  two keys that are wrapped alike (`OddWordsCollide`), so one of them does not come back. Other lengths that
  are no multiple of eight fail.
- `packetListToStructure` looks secret key packets up by `enums.packet.privateKey` and `privateSubkey`,
  which do not exist. So what follows an unparseable secret (sub)key is not held back, and a binding
  signature behind an unparseable secret subkey goes to the subkey before it; and while packets are held back,
  a parseable secret key packet does not end that.

## Model

| member | source | states |
|---|---|---|
| BigIntegers.BigInteger.FromBytes | src/biginteger/native.interface.js:27-34 | the value of the octets, big-endian, through their hexadecimal form; the empty array is zero |
| BigIntegers.BigInteger.Imod | src/biginteger/native.interface.js:134-140 | remainder in [0, m) for a positive modulus and any value, from a truncated remainder and one addition; for a negative modulus that addition makes it more negative; error for zero |
| BigIntegers.BigInteger.Mod | src/biginteger/native.interface.js:147-149 | the same on a copy |
| BigIntegers.BigInteger.ModExp | src/biginteger/native.interface.js:157-177 | square and multiply gives a^e mod n, for negative a or n the truncated remainder of the power; modulus 1 gives 0; each error exactly in its case |
| BigIntegers.BigInteger.Egcd | src/biginteger/native.interface.js:201-230 | ax + by is the last number of the algorithm, which divides both; the loop keeps both Bezout equations and terminates for all integers |
| BigIntegers.BigInteger.ModInv | src/biginteger/native.interface.js:187-193 | the inverse in [0, n); it is found exactly for coprime numbers, if the number is negative only after an odd count of divisions; otherwise an error. For a modulus below 0, a number congruent to the inverse |
| BigIntegers.BigInteger.GcdWith | src/biginteger/native.interface.js:237-246 | the last number of Euclid's algorithm, for all integers; the greatest common divisor of naturals |
| BigIntegers.SignedGcdIs | src/biginteger/native.interface.js:201-246 | that number is the greatest common divisor; its sign is that of the first operand after an even count of divisions, of the second after an odd one |
| BigIntegers.BigInteger.GetBit | src/biginteger/native.interface.js:380-383 | the value is (2 * high + bit) * 2^i + low with low below 2^i, for negative numbers too |
| BigIntegers.BitUnique | src/biginteger/native.interface.js:376-383 | a number has only one bit at a place |
| BigIntegers.ZeroBits | src/crypto/public_key/prime.js:239-243 | zero has no bit set at any place, so the search for one does not end |
| BigIntegers.BigInteger.BitLength | src/biginteger/native.interface.js:389-403 | least number of bits, at least one, that leaves only the sign |
| BigIntegers.BigInteger.ByteLength | src/biginteger/native.interface.js:409-421 | least number of octets, at least one, that leaves only the sign |
| BigIntegers.BigInteger.ToUint8Array | src/biginteger/native.interface.js:429-452 | exactly the requested low-order octets, zero-padded or cut, in either byte order |
| NumberTheory.InverseUnique | src/biginteger/native.interface.js:181-187 | two canonical inverses of a number are equal |
| NumberTheory.InverseExistsIff | src/biginteger/native.interface.js:181-187 | an inverse exists exactly for coprime numbers |
| NumberTheory.GcdIsGreatest | src/biginteger/native.interface.js:233-237 | Euclid's result divides both, and every common divisor divides it |
| Bytes.DigitsRoundTrip | src/biginteger/native.interface.js:424-429 | writing a number in enough octets and reading it back gives the number |
| Bytes.EvenHexPairs | src/biginteger/native.interface.js:432-445 | the pairs of hexadecimal digits are the octets of the number |
| Pkcs1.EmeEncode | src/crypto/pkcs1.js:76-94 | a block of the modulus' length: 0, 2, non-zero padding, 0, message; too long a message is an error |
| Pkcs1.EmeDecode | src/crypto/pkcs1.js:104-126 | the branch-free scan returns the message of a correct block, else the fallback payload or an error |
| Pkcs1.UnpaddedIff | src/crypto/pkcs1.js:104-126 | a block unpads to m exactly when some padding of at least eight non-zero octets encodes m so |
| Pkcs1.DecodedIs | src/crypto/pkcs1.js:104-126 | a block that encodes nothing gives the fallback payload, or an error without one |
| Pkcs1.EmsaEncode | src/crypto/pkcs1.js:136-164 | 0, 1, 0xff padding, 0, hash prefix, hash; both length errors |
| Pkcs1.PaddedIff | src/crypto/pkcs1.js:136-164 | which hashes fit which blocks, and the error for a hash of the wrong length |
| Pkcs1.HeaderIsDer | src/crypto/pkcs1.js:31-48 | each hash prefix is a DER sequence whose lengths fit the hash |
| Pkcs1.PaddingBinds | src/crypto/pkcs1.js:136-164 | a padded block belongs to one algorithm and one hash |
| Util.SelectUint8Array | src/util.js:514-523 | masked selection returns one of two arrays of any lengths, unchanged |
| Util.ReadNumber | src/util.js:39-45 | the big-endian value, in exact arithmetic |
| Util.WriteNumber | src/util.js:47-54 | the low-order octets, also where the 32-bit shift sees a negative word; beyond four octets they repeat, because a shift counts modulo 32 |
| Util.Nbits | src/util.js:265-293 | the binary search finds the bit length of a 32-bit word; zero has one bit |
| Rsa.BnEncrypt | src/crypto/public_key/rsa.js:290-299 | the padded message to the e-th power modulo n in as many octets as n |
| Rsa.BnDecrypt | src/crypto/public_key/rsa.js:301-331 | for any numbers: the first error in the source's order, drawing included, or the unblinded recombination, unpadded; for a valid key that is textbook decryption if the blinding value drawn is coprime to n, else the inverse error |
| Rsa.BlindedPower | src/crypto/public_key/rsa.js:313-327 | draw, blind, two half-size powers, recombine, unblind: c^d mod n for a valid key, in [0, n) for any; each error exactly in its case |
| Rsa.Recombination | src/crypto/public_key/rsa.js:321-325 | h * p + mp lies in [0, pq) and has both residues |
| Rsa.CrtPower | src/crypto/public_key/rsa.js:313-325 | with exponents reduced modulo p - 1 and q - 1 it equals b^d mod n, multiples of p and q included |
| Rsa.BlindingCancels | src/crypto/public_key/rsa.js:316-327 | multiplying by the inverse's e-th power before and by the value after changes nothing |
| Rsa.RoundTrip | src/crypto/public_key/rsa.js:290-331 | every message of at most byteLength(n) - 11 octets is decrypted to itself |
| Rsa.EncryptThenDecrypt | src/crypto/public_key/rsa.js:240-331 | raising to e and to d modulo n, in either order, gives every m < n back |
| Rsa.BnSign | src/crypto/public_key/rsa.js:240-249 | the padded hash to the d-th power modulo n |
| Rsa.BnVerify | src/crypto/public_key/rsa.js:268-279 | true exactly when s^e mod n is the padded hash; error for s >= n |
| Rsa.VerifyAcceptsOnlySignature | src/crypto/public_key/rsa.js:240-279 | a number below n verifies exactly when it is the signature |
| Rsa.SignatureBinds | src/crypto/public_key/rsa.js:268-279 | a number that verifies for one hash and algorithm verifies for no other |
| Rsa.ValidateParams | src/crypto/public_key/rsa.js:201-238 | for any numbers: the conjunction of pq = n, pu = 1 mod q and the two blinded checks with the factor drawn, or an error for a zero divisor |
| Rsa.FactorIff | src/crypto/public_key/rsa.js:228-229 | the factors that can be drawn are those from 2 to below twice 2^(bits / 3) |
| Rsa.ValidationDecides | src/crypto/public_key/rsa.js:201-238 | for odd primes and a factor below and coprime to p - 1 and q - 1: true exactly for a valid key |
| Rsa.ValidationDecidesIff | src/crypto/public_key/rsa.js:201-238 | for odd primes with pu = 1 mod q: a factor decides validity for all exponents exactly if it is below and coprime to p - 1 and q - 1 |
| Rsa.BlindedCheckIff | src/crypto/public_key/rsa.js:221-235 | the blinded check passes exactly when r < p - 1 and p - 1 divides r(de - 1) |
| Rsa.BlindedCheckDecides | src/crypto/public_key/rsa.js:221-235 | for r below and coprime to p - 1 it decides de = 1 mod p - 1 |
| Rsa.BlindedCheckDecidesIff | src/crypto/public_key/rsa.js:221-235 | r decides that relation for all exponents exactly if it is below and coprime to p - 1 |
| Rsa.BlindedCheckMisses | src/crypto/public_key/rsa.js:221-235 | a key it passes that does not decrypt |
| Primes.Fermat | src/crypto/public_key/prime.js:90-100 | a^(p-1) = 1 mod p for p not dividing a |
| Primes.SquareRootsOfOne | src/crypto/public_key/prime.js:254-264 | modulo a prime only 1 and -1 square to 1 |
| PrimeTests.FermatTest | src/crypto/public_key/prime.js:96-100 | true exactly when b^(n-1) = 1 mod n, to the base given or 2; errors for n below 1 |
| PrimeTests.SplitOddPart | src/crypto/public_key/prime.js:239-244 | for odd n above 1, n - 1 = 2^s d with d odd; for even n no bit is shifted out; for negative n, d is negative |
| PrimeTests.Round | src/crypto/public_key/prime.js:247-268 | one round passes exactly when a^d is 1 or the chain of squares meets -1 before its end; errors for n below 1 |
| PrimeTests.MillerRabin | src/crypto/public_key/prime.js:231-272 | for odd n: true exactly when every base passes the strong test; for positive even n: true; without a generator the bases drawn are those of [2, n - 1), and it throws below 4; with one, errors below 1 |
| PrimeTests.StrongTestOfPrime | src/crypto/public_key/prime.js:231-272 | an odd prime passes to every base it does not divide, and to no other |
| Composites.StrongTestIff | src/crypto/public_key/prime.js:231-272 | for odd n: a base passes exactly if a^(n-1) is 1 and, wherever a^(2e) is 1 for an exponent that doubles up to n - 1, a^e is 1 or -1 |
| Composites.PassingChain | src/crypto/public_key/prime.js:247-268 | where the chain of a passing base turns 1, it was 1 or -1 before |
| Composites.AtMostHalfPass | src/crypto/public_key/prime.js:231-272 | at most half of the bases below an odd composite number let it pass |
| Composites.LessThanHalfDrawn | src/crypto/public_key/prime.js:246-247 | of the bases that can be drawn, less than half do |
| Composites.WitnessExists | src/crypto/public_key/prime.js:231-272 | for every odd composite number above 3 a base coprime to it can be drawn that exposes it |
| Composites.RoundsAsked | src/crypto/public_key/prime.js:233-237 | every round has its own base; as many as asked for, or one for each 48 bits and at least one |
| PrimeTests.IsProbablePrime | src/crypto/public_key/prime.js:70-87 | for every n: refused unless the divisor of n - 1 and the exponent is 1, an error below 1 and for 3, else true exactly when n passes Fermat's and every strong test |
| PrimeTests.PrimesAreAcceptedIff | src/crypto/public_key/prime.js:70-87 | whatever is drawn, an odd prime is accepted exactly if it is not 3, and 3 throws |
| Composites.TestDecidesIff | src/crypto/public_key/prime.js:70-87 | a number above 3 is accepted for every drawing exactly if it is prime and n - 1 is coprime to the exponent |
| Random.GetRandomBigInteger | src/crypto/random.js:49-64 | a number of [min, max), or one error for max < min and another for max = min |
| Random.EveryNumberIsDrawn | src/crypto/random.js:49-64 | every number of the range is drawn for some octets of the length asked for |
| Random.DrawnIff | src/crypto/random.js:49-64 | what can be drawn is exactly the range |
| PrimeTests.FermatRejectsEven | src/crypto/public_key/prime.js:96-100 | Fermat's test to base 2 rejects every even number |
| Dsa.Sign | src/crypto/public_key/dsa.js:44-88 | the signature for the first nonce drawn that gives non-zero parts, in octets of q's length, or the first error, for every q and p; q = 1 has no nonce to draw |
| Dsa.SignWith | src/crypto/public_key/dsa.js:71-82 | one turn: r = g^k mod p mod q, s = (h + xr)/k mod q, another turn if one is zero, an error if k has no inverse |
| Dsa.Verify | src/crypto/public_key/dsa.js:103-134 | false for parts out of range, an error for an s without an inverse or p = 0, else true exactly when the verification equation holds |
| Dsa.AcceptedIff | src/crypto/public_key/dsa.js:103-134 | accepted exactly if both parts are in range, s is invertible, and some k with k s = h + x r gives r as the k-th power of g, h being the leftmost bits of the hash; an s without an inverse is an error, parts out of range are refused |
| Dsa.HoldsIff | src/crypto/public_key/dsa.js:103-134 | for every q: the equation holds exactly when r is the power of the recovered nonce |
| Dsa.NonceRecovered | src/crypto/public_key/dsa.js:76-133 | u1 + x u2 recovers the nonce that signing used |
| Dsa.FirstSignatureHolds | src/crypto/public_key/dsa.js:67-134 | whatever turn the signing loop ends with, its parts are in range and the equation holds for an invertible s |
| Dsa.SignedIsAccepted | src/crypto/public_key/dsa.js:44-134 | the octets signing returns have its parts as values, and are accepted if s is coprime to q, so for every prime q |
| Dsa.OctetsAreBitsIff | src/crypto/public_key/dsa.js:59-64 | the leftmost octets are the leftmost bits exactly if q fills its octets, the hash is no longer than q, or the octets kept are zero |
| Dsa.HashIsLeftmost | src/crypto/public_key/dsa.js:63 | the number signed is the leftmost bits of the hash, eight for each octet of q, modulo q |
| Dsa.HashIsBits | src/crypto/public_key/dsa.js:59-63 | for a q that fills its octets, or a hash no longer than q, it is the leftmost bits that the standard asks for |
| Dsa.NonceIff | src/crypto/public_key/dsa.js:73-75 | the nonces that can be drawn are those from 1 to q - 1 |
| Dsa.OctetsAreNotBits | src/crypto/public_key/dsa.js:59-64 | a hash and a q for which they differ |
| ElGamal.Encrypt | src/crypto/public_key/elgamal.js:38-54 | g^k and y^k m modulo p for the k drawn from [1, p - 1), each in as few octets as it needs |
| ElGamal.Decrypt | src/crypto/public_key/elgamal.js:68-77 | the quotient modulo p in p's length, unpadded; error where the inverse does not exist |
| ElGamal.SecretDividesOut | src/crypto/public_key/elgamal.js:50-75 | the shared secret is invertible, and dividing by it gives the padded message |
| ElGamal.RoundTrip | src/crypto/public_key/elgamal.js:38-77 | every message of at most byteLength(p) - 11 octets is decrypted to itself, for every nonce |
| ElGamal.NonceIff | src/crypto/public_key/elgamal.js:46-48 | the exponents that can be drawn are those from 1 to p - 2 |
| ElGamal.NoncesShow | src/crypto/public_key/elgamal.js:46-53 | for a generator, different exponents give different ciphertexts |
| Shifts.Double | src/util.js:304-312 | the octet loop doubles in the field: twice the value, reduced by 0x87 if the top bit was set |
| Shifts.DoubledIsProduct | src/util.js:304-312 | it is multiplication by x modulo x^128 + x^7 + x^2 + x + 1 |
| Shifts.ShiftRight | src/util.js:321-331 | in place, the value divided by 2^bits, for 0 to 8 bits |
| Shifts.ShiftedOutValue | src/util.js:321-331 | octets that take the low bits of their left neighbour have the shifted value |
| Ocb.CountTrailingZeros | src/crypto/mode/ocb.js:38-44 | the number of trailing zero bits |
| Ocb.NtzInTable | src/crypto/mode/ocb.js:90-96 | block numbers up to m use only masks below nbits(m) |
| Ocb.OCB.constructor | src/crypto/mode/ocb.js:74-88 | establishes the table invariant: mask[i] is E(0) doubled i + 2 times |
| Ocb.OCB.ExtendKeyVariables | src/crypto/mode/ocb.js:90-96 | keeps the invariant, loses no mask, and covers all blocks of the text and of the associated data |
| Ocb.OCB.Hash | src/crypto/mode/ocb.js:98-132 | HASH(K, A) of the standard, for empty and partial data too |
| OcbTweaks.HashIsSum | src/crypto/mode/ocb.js:98-132 | HASH is the sum of the parts of the data, each enciphered under its own tweak, a padded rest included |
| OcbTweaks.HashBinds | src/crypto/mode/ocb.js:98-132 | it changes with every single block and with the rest |
| Ocb.WindowByShifting | src/crypto/mode/ocb.js:156-167 | cutting 17 octets and shifting by 8 - bottom % 8 bits gives bits 1 + bottom to 128 + bottom |
| Ocb.OCB.FirstOffset | src/crypto/mode/ocb.js:153-167 | Offset_0 of the standard, from nonces of at most 15 octets |
| OcbTweaks.WindowOfStretch | src/crypto/mode/ocb.js:153-167 | as numbers: the block and its sum with itself shifted by eight bits, shifted by the bottom bits, the upper 128 of 256 |
| OcbTweaks.NonceInjective | src/crypto/mode/ocb.js:153-161 | nonces of any lengths up to 15 differ in the block that is enciphered or in the shift |
| Ocb.OCB.CryptNext | src/crypto/mode/ocb.js:178-189 | one block: offset, output and plaintext checksum advance alike in both directions |
| Ocb.OCB.CryptRest | src/crypto/mode/ocb.js:194-208 | the partial last block |
| Ocb.OCB.Crypt | src/crypto/mode/ocb.js:142-218 | either direction equals its definition with the plaintext's tag appended, from any valid table |
| OcbTweaks.OffsetIsGray | src/crypto/mode/ocb.js:172-189 | the running offset is the initial one plus four times the Gray code of the block number times E(0) |
| OcbTweaks.OutputIsTweaked | src/crypto/mode/ocb.js:178-208 | each block goes through the tweaked cipher by itself, the rest under a tweaked pad |
| OcbTweaks.TagIsSum | src/crypto/mode/ocb.js:210-216 | the tag is the sum of the text's parts under a tweak of its own, plus the hash |
| Ocb.OCB.Encrypt | src/crypto/mode/ocb.js:229-231 | OCB-ENCRYPT of section 4.2 of RFC 7253, whatever was called before |
| Ocb.OCB.Decrypt | src/crypto/mode/ocb.js:240-252 | OCB-DECRYPT; too short and wrong tag are the two errors |
| Ocb.OutputInverse | src/crypto/mode/ocb.js:178-208 | the two directions undo each other, partial last block included |
| Ocb.OpensIffSealed | src/crypto/mode/ocb.js:221-253 | a string opens to P exactly when it is P sealed |
| Ocb.RoundTrip | src/crypto/mode/ocb.js:221-253 | decrypting what was encrypted gives the plaintext and a matching tag |
| OcbTweaks.OpenFails | src/crypto/mode/ocb.js:240-252 | the two errors: less than a tag, and a tag that no text has |
| OcbTweaks.DataBinds | src/crypto/mode/ocb.js:221-253 | associated data that differ in one block, or in the rest, give different ciphertexts, and one does not open under the other |
| OcbTweaks.TextBinds | src/crypto/mode/ocb.js:210-216 | texts that differ in one block, or in the rest, have different tags |
| Bits.XorMut | src/crypto/mode/ocb.js:46-51 | exclusive or in place |
| Cfb.Encryptor.Process | src/crypto/mode/cfb.js:54-70 | a chunk completes whole blocks, the end everything; what is carried is shorter than a block |
| Cfb.Decryptor.Process | src/crypto/mode/cfb.js:94-110 | the same for decryption |
| Cfb.EncryptStream | src/crypto/mode/cfb.js:48-71 | under every cutting, the one-shot encryption of the whole |
| Cfb.DecryptStream | src/crypto/mode/cfb.js:88-111 | under every cutting, the one-shot decryption of the whole |
| Cfb.RoundTrip | src/crypto/mode/cfb.js:42-112 | decryption inverts encryption for every block function, partial last block included |
| Cfb.ChainingIsFeedback | src/crypto/mode/cfb.js:142-150 | CBC over a zero block and the text, cut and exclusive-ored with the text, is CFB encryption |
| Cfb.WebEncrypt | src/crypto/mode/cfb.js:142-150 | so the code returns CFB encryption, whatever padding the CBC host appends |
| AesKw.Pack | src/crypto/aes_kw.js:132-147 | four octets per word, big-endian |
| AesKw.Unpack | src/crypto/aes_kw.js:121-130 | the words of the octets |
| AesKw.UnpackPacked | src/crypto/aes_kw.js:121-147 | unpacking packed words gives them back |
| AesKw.StepUnstep | src/crypto/aes_kw.js:46-98 | a wrapping step applied to an undone step changes nothing |
| AesKw.UnstepStep | src/crypto/aes_kw.js:46-98 | an undone wrapping step changes nothing |
| AesKw.LoopsAreSteps | src/crypto/aes_kw.js:46-98 | on an even number of words the nested loops are the 6n steps of section 2.2 of RFC 3394, in order and backwards |
| AesKw.ShiftRegisterForm | src/crypto/aes_kw.js:46-62 | these steps compute what the version with shifted registers in section 2.2.1 of RFC 3394 does |
| AesKw.NumbersAreUsed | src/crypto/aes_kw.js:46-62 | under the cipher that does nothing the register holds the sum of the numbers 1 to 6n, and the key is unchanged |
| AesKw.Wrap | src/crypto/aes_kw.js:35-65 | on any number of words the nested loops as they stand, with the missing partner; on pairs the standard's wrapping; an error exactly for lengths that are no multiple of four |
| AesKw.Unwrap | src/crypto/aes_kw.js:75-106 | on any number of words the loops as they stand, on pairs the standard's unwrapping; errors unless the length is a multiple of four and the initial value comes back |
| AesKw.UnwrapIffWrap | src/crypto/aes_kw.js:35-106 | unwrapping gives P exactly for the string that wraps P |
| AesKw.UnwrapWrapped | src/crypto/aes_kw.js:35-106 | unwrapping a wrapped key gives the key |
| AesKw.OddWordsCollide | src/crypto/aes_kw.js:35-65 | for every length 8k + 4, a cipher and two keys that it wraps alike |
| AesKw.RoundTripIff | src/crypto/aes_kw.js:35-106 | of the lengths the code takes, every key comes back from every cipher exactly for multiples of eight |
| Readers.Reader.Read | src/packet/packet.js:227-231 | the next chunk, empty or not, or the end |
| Readers.Reader.ReadByte | src/packet/packet.js:128 | the next octet; none at the end, and none from an empty chunk, which is used up |
| Readers.Reader.ReadBytes | src/packet/aead_encrypted_data.js:166 | as many octets as asked for, fewer only at the end; empty chunks on the way are passed over |
| Readers.Reader.PeekBytes | src/packet/packet.js:123 | a prefix of what is left, which stays there as one chunk |
| Readers.Reader.Unshift | src/packet/aead_encrypted_data.js:172 | octets pushed back are read next |
| Aead.GetNonce | src/crypto/mode/ocb.js:262-268 | the chunk number exclusive-ored into the last eight octets; the other modes differ only in the length |
| Aead.NoncesDistinct | src/packet/aead_encrypted_data.js:173-197 | two chunks of a packet share a nonce exactly when their numbers agree modulo 2^32 |
| Aead.FieldIs64BitIff | src/packet/aead_encrypted_data.js:179-197 | the 32-bit store gives the 64-bit field exactly below 2^32 |
| Aead.ChunkSizes | src/packet/aead_encrypted_data.js:141 | the size octet c stands for 2^(c + 6) octets |
| Aead.ContextIff | src/packet/aead_encrypted_data.js:143-179 | nonce and associated data of a chunk tell its packet and its number modulo 2^32 |
| Aead.FinalContextIff | src/packet/aead_encrypted_data.js:143-197 | those of the final tag tell the number of chunks and the length of the text modulo 2^32, and are none of a chunk |
| Aead.Crypt | src/packet/aead_encrypted_data.js:136-205 | encryption writes the format, decryption reads it as defined, whatever the chunks of the stream |
| Aead.SealedIsChunked | src/packet/aead_encrypted_data.js:136-205 | what is written is every chunk of the text sealed under its number, then the tag over count and length |
| Aead.SealedLength | src/packet/aead_encrypted_data.js:136-205 | output length is the text's plus 16 for each of max(1, ceil(length / chunk)) chunks and for the final tag |
| Aead.DecryptsIff | src/packet/aead_encrypted_data.js:136-205 | data decrypts to P exactly when it is P as encryption writes it, or that with an empty chunk before the final tag where the last chunk is full |
| Aead.ForeignChunk | src/packet/aead_encrypted_data.js:165-185 | a chunk of another packet, or out of its place, is refused unless the mode itself is confused |
| Aead.WrongEnd | src/packet/aead_encrypted_data.js:165-205 | whole chunks with the final tag of another number of chunks or another length are refused so |
| Aead.OpenSealed | src/packet/aead_encrypted_data.js:165-185 | look-ahead and push-back isolate each chunk with its tag, from any chunk on |
| Aead.OcbIsLawful | src/crypto/mode/ocb.js:221-253 | OCB meets the law the chunk loop is proved over |
| Packets.WriteSimpleLength | src/packet/packet.js:58-69 | the one-, two- or five-octet form of a length |
| Packets.ReadSimpleLength | src/packet/packet.js:28-49 | the length and the size of its octets, also on cut-off input |
| Packets.LengthRoundTrip | src/packet/packet.js:28-69 | reading a written length gives its size, and the length exactly below 2^32 |
| Packets.ReadNewLength | src/packet/packet.js:201-222 | the length branches of the packet reader, with cut-off input and empty chunks |
| Packets.HeaderLength | src/packet/packet.js:201-222 | they agree with the writer exactly below 2^31, and when they take a body to be empty |
| Packets.LengthIsShortest | src/packet/packet.js:58-69 | no form that the reader takes for a length is shorter than the one written |
| Packets.ReadOldLength | src/packet/packet.js:168-200 | old-format lengths of one, two and four octets, with empty chunks |
| Packets.OldFormatRead | src/packet/packet.js:147-200 | old-format packets under one, two and four length octets are read back, exactly below 2^31 |
| Packets.IndeterminateRead | src/packet/packet.js:183-199 | and those without a length, to the end, unless empty |
| Packets.PartsRefusedIff | src/packet/packet.js:209-216 | a packet may begin with a partial length exactly for the tags 8, 9, 11, 18 and 20 |
| Packets.ReadBody | src/packet/packet.js:223-241 | exactly the octets of the length, surplus pushed back; error at an early end |
| Packets.ReadPackets | src/packet/packet.js:118-298 | the first packet of what is left, its error, what follows, and whether nothing does, on any stream; without empty chunks, independent of the cutting |
| Packets.ReadAll | src/packet/packetlist.js:70-113 | all packets to the end of any stream, less markers and trust packets, or the first error |
| Packets.KeptExactly | src/packet/packetlist.js:77-82 | nothing is lost but the packets with tags 10 and 12 |
| Packets.ParseAllOfMarked | src/packet/packet.js:118-298 | without empty chunks, reading a stream is parsing its octets |
| Packets.GapMattersIff | src/packet/packet.js:118-298 | an empty chunk behind k octets never changes what is read exactly if k is below two |
| PacketLists.WriteHeader | src/packet/packet.js:91-95 | tag octet and length |
| PacketLists.PartialWriter.Process | src/packet/packetlist.js:146-157 | one part of 2^k octets goes out once 512 are held, with the largest k up to 30; the rest is held |
| PacketLists.PartialWriter.Finish | src/packet/packetlist.js:157 | what is held goes out under a definite length |
| PacketLists.SplitConserves | src/packet/packetlist.js:146-157 | parts and remainder are the data, and every part has 2^9 to 2^30 octets |
| PacketLists.HeldIsShort | src/packet/packetlist.js:146-157 | each chunk sends at most one part, and what is held then is shorter than it |
| PacketLists.PartIsLargest | src/packet/packetlist.js:150-151 | a part takes the largest power of two there is data for, up to 2^30 |
| PacketLists.WriteStream | src/packet/packetlist.js:141-157 | tag, parts, definite remainder |
| PacketLists.WriteDefinite | src/packet/packetlist.js:158-168 | a packet under one length, counted over the chunks of a stream |
| PacketLists.Write | src/packet/packetlist.js:135-172 | the concatenation of the packets, each in its form |
| PacketLists.InPartsIff | src/packet/packetlist.js:135-172 | a packet begins with a partial length exactly if it is a stream of the kinds that may, of 512 octets or more |
| PacketLists.ItemRead | src/packet/packetlist.js:135-172 | one packet is read back, whatever follows it, exactly if its last length is below 2^31 |
| PacketLists.WrittenListIsRead | src/packet/packetlist.js:66-172 | a list is read back as written exactly if it is not empty and every last length is below 2^31 |
| PacketLists.WriteThenRead | src/packet/packetlist.js:66-172 | under every cutting of the written octets into non-empty chunks, less markers and trust packets |
| PacketLists.EmptyListIsRejected | src/packet/packet.js:123-127 | the empty list is not read back |
| PacketLists.CutOffIff | src/packet/packet.js:118-298 | a proper prefix of a written packet is read, as its whole parts, exactly at the cuts described above, and is an error elsewhere |
| PacketLists.MissingLastLengthIsAccepted | src/packet/packet.js:201-242 | so a stream that ends behind a part is read as complete |
| Keys.User.constructor | src/key/user.js:18-25 | a user with empty lists |
| Keys.User.ToPacketList | src/key/user.js:31-38 | packet, revocations, self and other certifications |
| Keys.Subkey.ToPacketList | src/key/subkey.js:36-42 | packet, revocations, bindings |
| Keys.Key.ToPacketList | src/key/key.js:160-168 | the fixed print order |
| Keys.PrintOrder | src/key/key.js:160-168 | key packet, revocations, direct signatures, users, subkeys |
| Keys.UserOrder | src/key/user.js:31-38 | packet, revocations, self and other certifications |
| Keys.Key.PacketListToStructure | src/key/key.js:54-154 | the loop over user, subkey and ignored packets, with pushes into shared objects, is the state machine on values, errors included |
| KeyPlaces.KeyOfList | src/key/key.js:54-154 | for every list: the first complaint about the packets that count is the error, or each of them is at the place that its position tells |
| KeyPlaces.ParsedIsDeclared | src/key/key.js:82-154 | key, users, subkeys and the lists of each, told by position: a signature goes to the last user if one comes after the last subkey, to the last subkey, or to the key |
| KeyPlaces.OnlyLiveCount | src/key/key.js:62-81 | all other packets might as well not be there |
| KeyPlaces.UnparseableIgnored | src/key/key.js:62-75 | an unparseable packet that is no public (sub)key packet leaves no trace |
| Keys.Key.PlacePacket | src/key/key.js:84-106 | the switch over the tag |
| Keys.Key.PlaceSignature | src/key/key.js:107-151 | a signature goes to one list of the key, the current user or the last subkey, or nowhere |
| Keys.RunKeepsSorted | src/key/key.js:54-154 | at every moment each list holds only packets that would be put into it again |
| Keys.PrintedIsRead | src/key/key.js:54-168 | the print order routes every signature back to its list, in order |
| Keys.NormalForm | src/key/key.js:54-168 | parsing the printed form of an accepted list gives the same structure, and prints the same |
| Keys.NothingInvented | src/key/key.js:54-168 | the printed key holds no packet more often than the list it came from |
| KeyPlaces.PrintedExactly | src/key/key.js:54-168 | the printed key holds exactly the packets that count and have a place, each as often as the list |
| Keys.Resumes | src/key/key.js:62-81 | while packets are skipped, parsing a list is parsing it from the first parseable packet whose tag is in the set |
| Keys.BehindUnparseable | src/key/key.js:31-81 | behind an unparseable key packet of each kind: the rest counts from there on; behind a secret one nothing is skipped |
| Keys.SkipsToPublicKey | src/key/key.js:62-81 | behind an unparseable public subkey nothing counts until a public key packet |
| Keys.BindingOfSecretSubkeyMisplaced | src/key/key.js:31-73 | behind an unparseable secret subkey a binding goes to the subkey before it |
| Crc24.BuildTables | src/encoding/armor.js:124-149 | every entry is eight shifts, byte-swapped, or the previous table advanced by an octet |
| Crc24.T0Xor | src/encoding/armor.js:131-140 | the table is linear under exclusive or |
| Crc24.WordIsFourOctets | src/encoding/armor.js:170-180 | the four-table step on a word is four single steps |
| Crc24.FastIsReference | src/encoding/armor.js:165-182 | the byte-swapped register is the bit-at-a-time remainder of section 6.1 of RFC 4880 |
| Crc24.AppendedIsZero | src/encoding/armor.js:165-182 | data followed by its checksum has the remainder zero |
| Crc24.OneWrongOctetShows | src/encoding/armor.js:165-182 | one wrong octet, wherever it stands, changes the checksum |
| Crc24.EmptyChecksum | src/encoding/armor.js:165-182 | nothing has the initial value of the standard for its checksum |
| Crc24.PolynomialIs | src/encoding/armor.js:131-140 | the polynomial by its exponents |
| Crc24.Checksum.Process | src/encoding/armor.js:167-181 | words, then octets; error for a view that is not word-aligned |
| Crc24.CreateCrc24 | src/encoding/armor.js:165-182 | for every data, chunking and byte order the reference checksum, and failure exactly for a misaligned chunk |
| Eol.Normalize | src/util.js:379-404 | one piece with a carriage return put before each bare line feed |
| Eol.CanonicalizeEOL | src/util.js:362-406 | under every chunking the one-shot map |
| Eol.CanonicalByLines | src/util.js:358-406 | each line that is ended gets a carriage return unless it has one |
| Eol.Compact | src/util.js:431-440 | in place, without overwriting what is unread, the text without the carriage returns before line feeds |
| Eol.NativeEOL | src/util.js:412-442 | under every chunking the one-shot map |
| Eol.NativeByLines | src/util.js:408-442 | each line that is ended loses one carriage return if it has one |
| Eol.CanonicalIdempotent | src/util.js:358-362 | canonical text is a fixed point |
| Eol.NativeOfCanonical | src/util.js:358-412 | canonicalizing first does not change the native form |
| Eol.TextRoundTripIff | src/util.js:358-442 | text survives both exactly when it holds no CR LF pair |

## Left out

- Dsa.Sign: the nonces drawn are a parameter, a finite sequence; `None` stands for a loop that asks for more.
- PrimeTests.MillerRabin: n = 1, where the bit loop does not end.
- BigIntegers.BigInteger.ModInv: for a modulus below 0 the result is stated up to congruence; no caller has one.
- Util.ReadNumber: the source adds doubles, which are exact up to 2^53, so for all numbers of six octets; rounding above is not modelled.
- AesKw.Wrap: the step number is a 32-bit word, which is the standard's number while 6n < 2^32.
- Ocb.OCB.Crypt: texts of 2^35 octets and more, where the block count no longer fits a 32-bit word.
- Packets.ReadPackets: the error of a streamed packet reaches the packet's own stream in the source; here it is the result. The stream handed to the callback and its back-pressure are not modelled.
- PacketLists.PartialWriter.Process: the power is the exact binary logarithm; rounding of Math.log is not modelled.
- Aead.Crypt: chunks are processed in sequence and stop at the first failure; promises, back-pressure and the fields of the packet before the data are not modelled.
- Keys.Key.PacketListToStructure: a packet's own parsing and its key ID are given; references from users and subkeys to the key are not modelled.
- Web Cryptography, asm.js, elliptic curves, S-boxes, key schedules and hash functions are foreign or abstract.
- The stream library itself, key generation, random number quality and the rejection loop of PKCS#1 padding are not modelled.
- PrimeTests.IsProbablePrime: `divisionTest` rejects nothing, so it is left out.
- `validateParams` of DSA and ElGamal add size checks and a chance test to facts proved here.
- Base64, armor headers, packet parsers, configuration and key policy are not modelled.
- Methods that return `this` for chaining return nothing here, and the bn.js variant of BigInteger is not modelled.
