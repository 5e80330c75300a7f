# Peacock OOBE: verified model

This project models the parts of `base/peacock-oobe` that decide whether a blueprint is genuine,
what it says and in which order it is carried out, and proves their properties:

- the vendored TweetNaCl arithmetic behind the signature check: field arithmetic in sixteen signed
  limbs with lazy carries, canonical packing, the exponentiation chains, point addition and the
  ladder, the reduction of scalars modulo L, SHA-512 with its rolling schedule, Poly1305 in byte
  limbs, and Ed25519 signing and opening;
- the minisign check on files: base64, the two blobs, the key ids and the signature;
- the TOML parser: UTF-8, strings, the tokenizer, the recursive parser and its tree;
- the blueprint engine: the order of stages, the show-if expressions, the answers store, its file,
  and the run of `--apply`.

## How it is built

| file | content |
|---|---|
| `Radix.dfy`, `Wrappers.dfy` | numbers as limb sequences, congruences; the option type |
| `Field25519.dfy`, `Packing.dfy`, `Exponent.dfy` | the field layer |
| `Ladder.dfy`, `Edwards.dfy`, `PointCodec.dfy` | the ladder over any addition, points, their encoding |
| `EdwardsLaw.dfy`, `Decompression.dfy` | what the addition formulas and the decompression compute |
| `Scalar.dfy`, `Sign.dfy`, `SignAgreement.dfy`, `Tampering.dfy`, `Ed25519.dfy` | scalars modulo L, signatures, agreement of signing and opening, what is refused |
| `Poly1305.dfy`, `HashCore.dfy`, `Sha512.dfy`, `Sha512Facts.dfy` | the one-time authenticator; the structure of SHA-512, its words, and what its parts are |
| `Base64.dfy`, `Minisign.dfy` | the decoder and the check of a file |
| `Utf8.dfy`, `TomlString.dfy`, `TomlSpelling.dfy` | the codec, unescaping, the ways to spell a text |
| `TomlLexer.dfy`, `TomlScan.dfy` | tokens as functions, and the loops that find them |
| `TomlTree.dfy`, `TomlParser.dfy`, `TomlInvariant.dfy`, `TomlDocument.dfy`, `TomlGrowth.dfy`, `TomlFrozen.dfy` | the tree, the parser as functions, its invariants, whole documents, what later lines may change |
| `TomlValues.dfy`, `TomlReadBack.dfy`, `TomlSections.dfy`, `TomlDotted.dfy` | values in any layout, and that documents of them are read back |
| `TomlWalk.dfy`, `TomlContext.dfy` | the walk along a header, and the parser as procedures on a context |
| `Pairs.dfy`, `Answers.dfy` | the answers store as lists, as maps and as growing arrays |
| `AnswersText.dfy`, `AnswersFile.dfy`, `AnswersRoundTrip.dfy`, `AnswersStore.dfy` | answers.toml written and read |
| `TomlRunOn.dfy`, `AnswersConverse.dfy` | strings that run on over lines, and what is not read back |
| `StageOrder.dfy`, `When.dfy`, `WhenMeaning.dfy`, `Apply.dfy`, `ApplyEvents.dfy`, `SavedRun.dfy` | ordering, expressions, the run and what its events mean |

Code that changes arrays and fields step by step is a method on arrays or on a class, proved
against a function; the properties are lemmas about the functions. A C integer is an unbounded
integer with its range proved wherever the source relies on it (i64 limbs, u32 words of
Poly1305), or reduced explicitly where the source wraps (u64 words of SHA-512, casts to bytes).
A C string is a sequence of characters without NUL; text of the TOML parser is bytes, that is
characters below 256. A pointer into the text is the rest of the text from there on.

## What the code does that its comments do not say

- `bp_phase_order` leaves out the stages of a cycle, those that require one, and all behind the
  first 256 stages, and `--apply` then still sets the done flag: `Apply.FlagMeansWholePhaseIff`
  says exactly when the flag covers the whole phase, `Apply.FlagDespiteCycle` gives a blueprint for
  which nothing runs, `Apply.FlagDespiteLength` one whose last stage does not.
- A failed stage is noted as pending and the comment calls it resumable, but a failed run does not
  save the store (`Apply.ApplyBlueprint`).
- The printer of `answers.toml` does not escape. `AnswersText.ReadBackIff` says exactly which values
  are read back, and `AnswersConverse.LoadSavedIff` exactly which stores under keys that can be written;
  `AnswersStore.QuoteLosesStore` shows that one other value can lose the whole store.
- `b64decode` accepts padding in any group (`Base64.DecodedWhen`, `Base64.MisplacedPadding`).
- `load_blob` names its algorithm "Ed" but compares the little-endian number of the two bytes with
  0x4564, whose bytes are 64 45; a blob with the letters E, d in this order is refused
  (`Minisign.OtherAlgorithmRefused`).
- The UTF-8 decoder accepts overlong forms (`Utf8.OverlongAccepted`).
- An inline table can be added to by a later header (`TomlFrozen.InlineTableChanged`);
  `TomlFrozen.ReadonlyKeptIff` says exactly when inline tables stay as they are.

## Model

| member | source | states |
|---|---|---|
| `Field25519.Car25519` | base/peacock-oobe/tweetnacl.c:273-283 | One carry pass keeps the value modulo 2^256 - 38, leaves limbs 1 to 15 digits and returns the overflow to limb 0 times 38; every intermediate number fits i64, for limbs below 2^62 in magnitude. |
| `Field25519.TwoPasses` | base/peacock-oobe/tweetnacl.c:354-363 | Two passes bring limbs that are below 2^62 to limb 0 in [-38, 2^16 + 38) and the others in [0, 2^16), with the same residue. |
| `Field25519.ThirdPass` | base/peacock-oobe/tweetnacl.c:300-302 | A third pass makes all sixteen limbs digits. |
| `Field25519.Mul` | base/peacock-oobe/tweetnacl.c:354-363 | For limbs below 2^26 in magnitude the product is congruent to a*b modulo 2^255 - 19 and its limbs are back in the tight range, also when the output is an input; no accumulator or carry leaves i64. |
| `Field25519.Convolve` | base/peacock-oobe/tweetnacl.c:356-358 | The double loop accumulates the full product in 31 limbs, each within the bound of its row. |
| `Field25519.Fold` | base/peacock-oobe/tweetnacl.c:359-360 | Folding limbs 16 to 30 back with weight 38 keeps the residue and stays below 2^62. |
| `Field25519.Add` | base/peacock-oobe/tweetnacl.c:342-346 | The limbwise sum has the sum of the values, also in place. |
| `Field25519.Sub` | base/peacock-oobe/tweetnacl.c:348-352 | The limbwise difference has the difference of the values, also in place. |
| `Field25519.Select` | base/peacock-oobe/tweetnacl.c:285-293 | The two arrays change places when the bit is one and stay when it is zero. |
| `Packing.Normalize` | base/peacock-oobe/tweetnacl.c:299-302 | Three carry passes give sixteen digits of a number with the same residue. |
| `Packing.SubtractPrime` | base/peacock-oobe/tweetnacl.c:304-311 | The borrow loop computes t - p exactly, the sign in the top limb. |
| `Packing.TwiceReduced` | base/peacock-oobe/tweetnacl.c:303-313 | Two conditional subtractions of p reduce every 256-bit number completely. |
| `Packing.Pack25519` | base/peacock-oobe/tweetnacl.c:295-318 | The 32 bytes are the little-endian encoding of the residue below p, for limbs below 2^62; other bytes stay. |
| `Packing.EncodingIsCanonical` | base/peacock-oobe/tweetnacl.c:295-326 | Two elements have the same encoding exactly when they are congruent. |
| `Packing.Unpack25519` | base/peacock-oobe/tweetnacl.c:335-340 | The limbs hold the low 255 bits of the bytes. |
| `Packing.RepackedSame` | base/peacock-oobe/tweetnacl.c:295-340 | Unpacking and packing gives the same 32 bytes exactly when they encode a number below p. |
| `Packing.Verify` | base/peacock-oobe/tweetnacl.c:54-59 | 0 when the first n bytes agree and -1 otherwise. |
| `Packing.Neq25519` | base/peacock-oobe/tweetnacl.c:320-326 | 0 exactly when the two elements are congruent. |
| `Packing.Par25519` | base/peacock-oobe/tweetnacl.c:328-333 | The lowest bit of the residue below p. |
| `Exponent.InverseExponent` | base/peacock-oobe/tweetnacl.c:370-380 | The square-and-multiply chain over the bits 253 to 0, skipping 2 and 4, has the exponent 2^255 - 21. |
| `Exponent.RootExponent` | base/peacock-oobe/tweetnacl.c:382-392 | The chain over the bits 250 to 0, skipping 1, has the exponent 2^252 - 3. |
| `Exponent.Invert` | base/peacock-oobe/tweetnacl.c:370-380 | The result is congruent to the input to the power p - 2, with tight limbs, for every input below the bound of M; each of the 254 steps keeps the bound. |
| `Exponent.PowerForRoot` | base/peacock-oobe/tweetnacl.c:382-392 | The result is congruent to the input to the power 2^252 - 3, with tight limbs; each of the 251 steps keeps the bound. |
| `Exponent.InverseTimesItself` | base/peacock-oobe/tweetnacl.c:370-380 | For any modulus: what is congruent to z^e is the inverse of z when z^(e+1) is congruent to one; with e = p - 2 it says that the power computed inverts the element, given Fermat for it. |
| `Ladder.RunAppends` | base/peacock-oobe/tweetnacl.c:637-643 | For every commutative monoid and every addition that represents it, i steps of the ladder turn (m, m + 1) times the element into the multiple with i more bits appended, and the next one. |
| `Ladder.LadderMultiplies` | base/peacock-oobe/tweetnacl.c:630-644 | After all 256 bits the ladder holds s times and s + 1 times the point, for every 32-byte s. |
| `Edwards.AddPoint` | base/peacock-oobe/tweetnacl.c:588-611 | With the limb arithmetic, all coordinates stay small and are the extended Edwards sum modulo p. |
| `Edwards.CombinedIsExtended` | base/peacock-oobe/tweetnacl.c:588-611 | Every output of the addition formulas has XY congruent to ZT, whatever the points that were added. |
| `EdwardsLaw.SumLaw` | base/peacock-oobe/tweetnacl.c:588-611 | For any modulus and any integers as coordinates: the four products of the addition are the sum that the twisted Edwards curve prescribes, multiplied out over z. |
| `EdwardsLaw.SumFollowsLaw` | base/peacock-oobe/tweetnacl.c:588-611 | For all p, q and their sum r modulo p: r.x (z1 z2 + d t1 t2) is r.z (x1 y2 + x2 y1), r.y (z1 z2 - d t1 t2) is r.z (y1 y2 + x1 x2), and r.z is four times the product of the two denominators, d being the curve constant of the decompression. |
| `EdwardsLaw.SumOnEdwards` | base/peacock-oobe/tweetnacl.c:588-611 | For any modulus: if two points have XY congruent to ZT and satisfy y^2 - x^2 = z^2 + d t^2, so does their sum. |
| `EdwardsLaw.SumOnCurve` | base/peacock-oobe/tweetnacl.c:588-611 | The same for the addition of the program and its constants. |
| `EdwardsLaw.CurveConstant` | base/peacock-oobe/tweetnacl.c:19-20 | The constant of the decompression solves 121666 d = -121665 modulo p, and the one of the addition is twice it. |
| `EdwardsLaw.SquareRootOfMinusOne` | base/peacock-oobe/tweetnacl.c:23 | The square of the third constant is -1 modulo p. |
| `EdwardsLaw.BaseOnCurve` | base/peacock-oobe/tweetnacl.c:21-22 | The base point satisfies the curve equation; its y is 4/5 and its x is even. |
| `EdwardsLaw.LadderOnCurve` | base/peacock-oobe/tweetnacl.c:630-644 | Every point that the ladder computes from points of the curve is on the curve, for every scalar and any number of steps. |
| `EdwardsLaw.DecodedCurvePoint` | base/peacock-oobe/tweetnacl.c:743-777 | What is decompressed is a point of the curve in extended coordinates. |
| `Edwards.LadderBody` | base/peacock-oobe/tweetnacl.c:638-642 | One iteration, the two conditional exchanges included, is one step of the ladder and keeps all coordinates small. |
| `Edwards.ScalarMult` | base/peacock-oobe/tweetnacl.c:630-644 | Every one of the 256 iterations keeps the coordinates within the bound of M and XY congruent to ZT; the result is the run of the ladder. |
| `Edwards.ScalarBase` | base/peacock-oobe/tweetnacl.c:646-654 | The same from the base point. |
| `PointCodec.Pack` | base/peacock-oobe/tweetnacl.c:620-628 | The bytes are the canonical encoding of Y/Z with the parity of X/Z in the top bit. |
| `PointCodec.UnpackNeg` | base/peacock-oobe/tweetnacl.c:743-777 | Succeeds exactly when the decompression formula has a root among its two candidates, and then gives the point with the sign chosen against the top bit, with small coordinates. |
| `PointCodec.DecodedIsExtended` | base/peacock-oobe/tweetnacl.c:743-777 | A decompressed point has XY congruent to ZT. |
| `PointCodec.DecodedOnCurve` | base/peacock-oobe/tweetnacl.c:743-777 | A decompressed point lies on the curve: y^2 - x^2 is congruent to 1 + d x^2 y^2. |
| `Decompression.DecodedSign` | base/peacock-oobe/tweetnacl.c:743-777 | For every 32 bytes that decode: the y is that of the bytes, and x is zero or has the parity that is not in the top bit. |
| `Decompression.RepackedIff` | base/peacock-oobe/tweetnacl.c:620-777 | Packing the negative of what 32 bytes decode to gives the bytes back exactly when their low 255 bits are below p and they do not put a sign on x = 0. |
| `Decompression.RootFound` | base/peacock-oobe/tweetnacl.c:752-771 | For any prime modulus congruent to 5 modulo 8: when num is a square times den, the candidate num den^3 (num den^7)^((p-5)/8) or its product with the root of -1 is a root. |
| `Decompression.DecodedIff` | base/peacock-oobe/tweetnacl.c:743-777 | 32 bytes decode exactly when the curve has a point with the y that they encode, given Fermat's little theorem for p. |
| `Decompression.AffineTimesZ` | base/peacock-oobe/tweetnacl.c:620-628 | The coordinates that pack encodes, multiplied by Z, are X and Y, given Fermat for Z. |
| `Scalar.Eliminate` | base/peacock-oobe/tweetnacl.c:680-689 | One round of the first loop of modL clears the top limb, keeps the value modulo L and the bounds of the limbs, with every intermediate limb within i64. |
| `Scalar.QuotientIsClose` | base/peacock-oobe/tweetnacl.c:690-695 | Subtracting x[31] >> 4 times L leaves a number strictly between -L and L, so one conditional addition of L is enough. |
| `Scalar.SubtractQuotient` | base/peacock-oobe/tweetnacl.c:690-695 | The second loop subtracts that multiple of L, leaving 32 digits and the carry. |
| `Scalar.ModL` | base/peacock-oobe/tweetnacl.c:677-701 | The 32 bytes written are the value of the 64 limbs reduced modulo L: congruent and below L. |
| `Scalar.Reduce` | base/peacock-oobe/tweetnacl.c:703-709 | For every 64-byte input the first 32 bytes become the input reduced modulo L, the rest zero (section 5.1 of RFC 8032). |
| `Sign.ScalarSum` | base/peacock-oobe/tweetnacl.c:735-737 | The value of the byte convolution is r + h*d, with limbs small enough for modL. |
| `Sign.CryptoSign` | base/peacock-oobe/tweetnacl.c:711-741 | The signed message is R, S and the message as section 5.1.6 of RFC 8032 defines them, for any hash to 64 bytes. |
| `Sign.CryptoSignKeypair` | base/peacock-oobe/tweetnacl.c:656-673 | The public key is the encoding of the pruned hash times the base point, and the secret key is the seed followed by it. |
| `Sign.CryptoSignOpen` | base/peacock-oobe/tweetnacl.c:779-809 | Accepts exactly when the recovered point encodes to R, then gives the message; otherwise the length is -1 and, once the key has decoded, the message area is zero. |
| `SignAgreement.RecoveredEncodesR` | base/peacock-oobe/tweetnacl.c:794-798 | h times the negated key plus S times the base point has the encoding of r times the base point. |
| `SignAgreement.SignedOpens` | base/peacock-oobe/tweetnacl.c:711-741 | Every signature is accepted under the key pair of its seed and gives the message back, for every hash, seed and message, the curve being a group in which the base point has order L. |
| `Sign.PrunedValue` | base/peacock-oobe/tweetnacl.c:717-720 | The secret scalar is 2^254 plus eight times the 251 bits above the low three of the hashed seed. |
| `Tampering.SignatureEquation` | base/peacock-oobe/tweetnacl.c:711-741 | R encodes r times the base point for the nonce r, which is the hash of the second half of the hashed seed and the message, and S is r plus the hash of R, the key and the message, as bytes, times the secret scalar, modulo L. |
| `Tampering.EqualMultiplesIff` | base/peacock-oobe/tweetnacl.c:779-809 | Two multiples of an element of exact order are the same exactly when they are congruent modulo the order. |
| `Tampering.VerifiesIff` | base/peacock-oobe/tweetnacl.c:779-809 | Under the public key of a seed, a text that begins with the encoding of r times the base point and with s is accepted exactly when the hash of the bytes R, key and message that stand there, times the secret scalar, is s - r modulo L; then the message is given. |
| `Tampering.TamperedIff` | base/peacock-oobe/tweetnacl.c:779-809 | A signature in front of any message, opened under the public key of any seed, is accepted exactly when the hash of R, that key and that message times that scalar is congruent modulo L to the same for the key and the message signed. |
| `Ed25519.ByteHashTo64` | base/peacock-oobe/tweetnacl.c:562-586 | SHA-512 meets the requirement on the hash. |
| `Ed25519.Ed25519Opens` | base/peacock-oobe/tweetnacl.c:779-809 | The agreement of signing and opening with SHA-512 as the hash. |
| `Poly1305.Add1305` | base/peacock-oobe/tweetnacl.c:171-179 | The limbs become the sum of the two numbers modulo 2^136, in digits. |
| `Poly1305.Multiply` | base/peacock-oobe/tweetnacl.c:205-208 | The inner loops give the seventeen sums with wrap by 320, each within 32 bits. |
| `Poly1305.ProductValue` | base/peacock-oobe/tweetnacl.c:205-208 | The value of these sums is congruent to the product modulo 2^130 - 5. |
| `Poly1305.PartialReduce` | base/peacock-oobe/tweetnacl.c:210-223 | The two carry loops bring the sums to digits below 2(2^130 - 5) with the same residue, all words within 32 bits. |
| `Poly1305.Block` | base/peacock-oobe/tweetnacl.c:199-224 | One message block: the accumulator stays below 2(2^130 - 5) and is congruent to (h + c) r. |
| `Poly1305.Freeze` | base/peacock-oobe/tweetnacl.c:226-229 | The conditional subtraction of 2^130 - 5 by mask gives the reduced accumulator. |
| `Poly1305.AccumulateIsPolynomial` | base/peacock-oobe/tweetnacl.c:199-224 | The loop evaluates the polynomial of the message blocks in r, section 2.5 of RFC 8439. |
| `Poly1305.AccumulateFromZero` | base/peacock-oobe/tweetnacl.c:195-229 | The accumulator that starts at zero ends as the polynomial at r, reduced modulo 2^130 - 5. |
| `Poly1305.OneTimeAuth` | base/peacock-oobe/tweetnacl.c:185-236 | For every message and key the 16 bytes are ((sum of c_i r^k mod 2^130 - 5) + s) mod 2^128. |
| `Poly1305.ClampedWord` | base/peacock-oobe/tweetnacl.c:191-197 | In each little-endian word of r the top four bits are clear, and in all but the first the low two; the others are those of the key (section 2.5 of RFC 8439). |
| `HashCore.ExtendAgrees` | base/peacock-oobe/tweetnacl.c:535-537 | The update in the order in which the code adds is the recurrence of section 6.4.2 of FIPS 180-4. |
| `HashCore.Advance` | base/peacock-oobe/tweetnacl.c:535-537 | Sixteen in-place updates move the sixteen-word window sixteen places along the 80-word schedule. |
| `HashCore.EightyRounds` | base/peacock-oobe/tweetnacl.c:529-538 | The 80 rounds with the rolling window are the 80 rounds over the whole schedule. |
| `HashCore.OneBlock` | base/peacock-oobe/tweetnacl.c:526-544 | One block is the compression of section 6.4.2. |
| `HashCore.BlocksCompose` | base/peacock-oobe/tweetnacl.c:526-544 | Hashing a concatenation is hashing one part after the other, when the first is whole blocks. |
| `HashCore.HashBlocks` | base/peacock-oobe/tweetnacl.c:519-549 | The stored state becomes the hash value after all whole blocks; the number of bytes left over is returned. |
| `HashCore.TailPads` | base/peacock-oobe/tweetnacl.c:562-582 | Hashing the whole blocks and then the tail buffer is hashing the padded message of section 5.1.2, for every length. |
| `HashCore.BuildTail` | base/peacock-oobe/tweetnacl.c:574-580 | The tail buffer is the tail, a one bit, zeros and the 128-bit length, in one block or two. |
| `HashCore.CryptoHash` | base/peacock-oobe/tweetnacl.c:562-586 | The 64 bytes are the hash of the padded message from the initial value. |
| `Sha512.LoadStored` | base/peacock-oobe/tweetnacl.c:35-52 | Loading eight stored bytes gives the word back. |
| `Sha512.Dl64` | base/peacock-oobe/tweetnacl.c:35-40 | The loop loads the word. |
| `Sha512.Ts64` | base/peacock-oobe/tweetnacl.c:48-52 | The loop from the last byte to the first stores the word; other bytes stay. |
| `Sha512.WordsLawful` | base/peacock-oobe/tweetnacl.c:487-517 | The words of SHA-512 with addition modulo 2^64 meet what the structure needs. |
| `Sha512Facts.ChIs` | base/peacock-oobe/tweetnacl.c:488 | Ch takes the bits of the second word where the first has ones, and those of the third where it has zeros. |
| `Sha512Facts.MajIs` | base/peacock-oobe/tweetnacl.c:489 | Maj has the bits that at least two of the three words have. |
| `Sha512Facts.BigSigma0Is` | base/peacock-oobe/tweetnacl.c:490 | The function is the exclusive or of three rotations to the right, by 28, 34 and 39. |
| `Sha512Facts.BigSigma1Is` | base/peacock-oobe/tweetnacl.c:491 | The same, by 14, 18 and 41. |
| `Sha512Facts.SmallSigma0Is` | base/peacock-oobe/tweetnacl.c:492 | The same, by 1 and 8, and a shift by 7. |
| `Sha512Facts.SmallSigma1Is` | base/peacock-oobe/tweetnacl.c:493 | The same, by 19 and 61, and a shift by 6. |
| `Sha512Facts.RoundSums` | base/peacock-oobe/tweetnacl.c:530-534 | For any addition that wraps around: a round puts the sum of seven terms in front and another sum in the fifth place, and moves the other variables up. |
| `Sha512Facts.ScheduleSums` | base/peacock-oobe/tweetnacl.c:535-537 | A word of the schedule is the sum of the ones 2, 7, 15 and 16 before it, the first and the third of these passed through a function, reduced once. |
| `Sha512Facts.BlockSums` | base/peacock-oobe/tweetnacl.c:529-540 | The hash after a block is the sum of the one before it and the working variables after 80 rounds, word by word. |
| `Sha512Facts.LoadIs` | base/peacock-oobe/tweetnacl.c:35-40 | Loading eight bytes gives their number with the most significant byte first. |
| `Sha512Facts.PaddedForm` | base/peacock-oobe/tweetnacl.c:574-580 | The padded message is whole blocks and as few as possible: the message, a one bit, zeros, and in the last sixteen bytes its length in bits (section 5.1.2 of FIPS 180-4). |
| `Sha512.CryptoHash` | base/peacock-oobe/tweetnacl.c:562-586 | crypto_hash computes SHA-512 with the constants of FIPS 180-4. |
| `Base64.AlphabetInverse` | base/peacock-oobe/bp_verify.c:19-26 | The value of a character and the character of a value are inverse to each other. |
| `Base64.Decode` | base/peacock-oobe/bp_verify.c:29-49 | The count is the number of decoded bytes if the text decodes and they fit, and -1 otherwise; the bytes are written from the front, and nothing at or beyond the capacity is written on any input. |
| `Base64.DecodedWhen` | base/peacock-oobe/bp_verify.c:29-49 | A text decodes exactly when it is whole groups of four with "=" only in the last two places of a group, any group. |
| `Base64.DecodeEncoded` | base/peacock-oobe/bp_verify.c:29-49 | Decoding the standard encoding of section 4 of RFC 4648 gives the bytes back, for all bytes. |
| `Base64.EncodeDecoded` | base/peacock-oobe/bp_verify.c:29-49 | Encoding the decoded bytes gives the text back exactly when the text is canonical: padding in the last group only, with zero bits cut off. |
| `Base64.MisplacedPadding` | base/peacock-oobe/bp_verify.c:29-49 | "QQ==QQ==" is accepted though no encoding has padding in the middle. |
| `Minisign.LoadBlob` | base/peacock-oobe/bp_verify.c:68-78 | A blob is accepted exactly when its line decodes to the wanted length and its first two bytes are the algorithm number. |
| `Minisign.OtherAlgorithmRefused` | base/peacock-oobe/bp_verify.c:75-77 | A blob is accepted exactly when it begins with the bytes 64 45, so one that begins with the letters E, d in this order is refused. |
| `Minisign.VerifyFile` | base/peacock-oobe/bp_verify.c:80-112 | The checks in their order: the two blobs, the key ids, the size, the signature. |
| `Minisign.FilesVerify` | base/peacock-oobe/bp_verify.c:80-112 | The file of a key and the file of a signature: another key id is refused, then data of more than 8 MiB, and then crypto_sign_open decides. |
| `Minisign.SignedFileVerifies` | base/peacock-oobe/bp_verify.c:80-112 | From signing over base64 to the verified file: the files of a signer verify the data signed, for every seed, key id and data of at most 8 MiB. |
| `Minisign.OtherDataVerifiesIff` | base/peacock-oobe/bp_verify.c:80-112 | The files of a signer beside other data verify exactly when the data has at most 8 MiB and its hash with R and the key, times the secret scalar, is congruent modulo L to that of the data signed. |
| `StageOrder.BpPhaseOrder` | base/peacock-oobe/blueprint.c:155-183 | The loops over flags and passes put out the order of the phase, whatever stops them. |
| `StageOrder.IsReady` | base/peacock-oobe/blueprint.c:168-177 | The two inner loops decide whether everything needed has been put out. |
| `StageOrder.Stopped` | base/peacock-oobe/blueprint.c:162-181 | Whichever of the three ways the passes stop, the order is complete; the limit on the passes is never the reason. |
| `StageOrder.PassesSettle` | base/peacock-oobe/blueprint.c:162-181 | As many passes as stages are enough: then nothing is ready any more. |
| `StageOrder.OrderSound` | base/peacock-oobe/blueprint.c:155-183 | Stages of the phase, each at most once, each after every stage of the phase that it requires. |
| `StageOrder.OrderIsLeast` | base/peacock-oobe/blueprint.c:162-181 | What is put out is the least set of stages closed under readiness. |
| `StageOrder.LeftOutIff` | base/peacock-oobe/blueprint.c:162-181 | A stage of the phase is left out exactly when it stands behind the first 256 stages or its requirements lead into a cycle. |
| `StageOrder.CompleteIffAcyclic` | base/peacock-oobe/blueprint.c:162-181 | All stages of the phase, wherever they stand in the blueprint, are put out exactly when none stands behind the first 256 stages and the requirements among these have no cycle. |
| `StageOrder.InOrderUnchanged` | base/peacock-oobe/blueprint.c:154-183 | A list already in dependency order comes out as it stands. |
| `Apply.ApplyBlueprint` | base/peacock-oobe/main.c:134-175 | The whole run: the events, the exit code, the statuses and flag in the store, and when the store is saved. |
| `Apply.RunStages` | base/peacock-oobe/main.c:139-166 | The loop produces the events up to the first failure and notes a status for each. |
| `Apply.RequirementsFirst` | base/peacock-oobe/main.c:139-166 | In every run, when a stage is come to, every stage of the phase that it requires was skipped or done before. |
| `Apply.NothingAfterFailure` | base/peacock-oobe/main.c:150-164 | In every run nothing happens after the first failure. |
| `ApplyEvents.UnconditionalNotSkipped` | base/peacock-oobe/main.c:141-144 | In every run and world a stage without a condition, or with an empty one, is never skipped. |
| `ApplyEvents.SkippedIff` | base/peacock-oobe/main.c:141-144 | In every run and world a stage whose condition is a written formula is skipped exactly when the formula is false over the answers as a map. |
| `ApplyEvents.DoneIff` | base/peacock-oobe/main.c:150-165 | In every run and world a stage is done exactly when it was not skipped, its script (if any, and not local) was fetched, and its action succeeded or there is none; what fails first decides the event. |
| `ApplyEvents.StatusAfterRun` | base/peacock-oobe/main.c:139-166 | After every run the status under an id that the run names once is "skipped", "done" or "pending" by what happened to the stage, and as before when only the download failed or when the run does not name it. |
| `ApplyEvents.FlagsAfterRun` | base/peacock-oobe/main.c:168-173 | After every run the flag of the phase is set if it was or if every ordered stage was skipped or done; the other flag and the answers are as before. |
| `Apply.FlagIffOrderedDone` | base/peacock-oobe/main.c:168-173 | The run succeeds exactly when every ordered stage was skipped or done. |
| `Apply.FlagMeansWholePhaseIff` | base/peacock-oobe/main.c:168-173 | When the done flag is set, every stage of the phase, wherever it stands in the blueprint, was skipped or done exactly when none stands behind the first 256 stages and the requirements among these have no cycle. |
| `Apply.FlagDespiteCycle` | base/peacock-oobe/main.c:134-175 | Two stages that require each other: nothing runs and the run succeeds. |
| `Apply.FlagDespiteLength` | base/peacock-oobe/main.c:134-175 | 257 stages that require nothing: the run succeeds without the last. |
| `SavedRun.RunLoadsBack` | base/peacock-oobe/main.c:168-173 | The store that a run leaves is what loading its saved text gives, for every world, if ids and texts are clean. |
| `Pairs.SetDistinct` | base/peacock-oobe/blueprint.c:202-209 | Setting keeps the keys distinct. |
| `Pairs.SetKeys` | base/peacock-oobe/blueprint.c:202-222 | Setting keeps the order of the keys and adds a new one at the end. |
| `Pairs.GetIsLookup` | base/peacock-oobe/blueprint.c:197-201 | Reading the list is reading the map it stands for. |
| `Pairs.SetIsUpdate` | base/peacock-oobe/blueprint.c:202-222 | Setting in the list is updating the map. |
| `Pairs.RunOfSets` | base/peacock-oobe/blueprint.c:202-222 | Every run of settings keeps the keys distinct and is the same run on the map. |
| `Answers.Store.Get` | base/peacock-oobe/blueprint.c:197-201 | The value of the first pair with the key, or none. |
| `Answers.Store.Grow` | base/peacock-oobe/blueprint.c:186-195 | Room for one more, by doubling from eight, with the contents kept. |
| `Answers.Store.Set` | base/peacock-oobe/blueprint.c:202-222 | The contents become those with the key set, the keys distinct. |
| `When.BpWhenEval` | base/peacock-oobe/blueprint.c:347-368 | The two token loops compute the value of the expression over the answers. |
| `When.EvalAtom` | base/peacock-oobe/blueprint.c:325-346 | Cutting, searching, trimming and unquoting compute the value of an atom. |
| `When.NextToken` | base/peacock-oobe/blueprint.c:352-358 | strtok_r gives the non-empty stretches between delimiters one by one. |
| `WhenMeaning.AtomMeans` | base/peacock-oobe/blueprint.c:325-346 | A written atom, with blanks and quotes as it may have them, holds exactly when it is true of the answers. |
| `WhenMeaning.TokensOfJoin` | base/peacock-oobe/blueprint.c:352-362 | Splitting undoes joining with doubled delimiters. |
| `WhenMeaning.PrintedMeans` | base/peacock-oobe/blueprint.c:347-368 | Printing a non-empty OR of non-empty ANDs of atoms and evaluating the text gives its boolean meaning over the answers as a map, unset keys reading as "". |
| `Utf8.UcsToUtf8` | base/peacock-oobe/toml.c:198-276 | Writes the encoding of the code and nothing else, or returns -1 and writes nothing. |
| `Utf8.Utf8ToUcs` | base/peacock-oobe/toml.c:97-191 | The code and the number of bytes, or -1. |
| `Utf8.DecodeEncoded` | base/peacock-oobe/toml.c:97-276 | Decoding undoes encoding for every encodable code, whatever follows. |
| `Utf8.DecodeAllEncoded` | base/peacock-oobe/toml.c:97-276 | A list of codes is recovered from the concatenation of their encodings. |
| `Utf8.ReencodedIff` | base/peacock-oobe/toml.c:97-276 | What is decoded is the encoding of the code exactly when the code is encodable and the form is the shortest. |
| `Utf8.OverlongAccepted` | base/peacock-oobe/toml.c:97-191 | The decoder accepts every code in one byte more than it takes. |
| `Utf8.EncodedForms` | base/peacock-oobe/toml.c:198-276 | The bytes of the forms of one to four bytes, by the bits of the code. |
| `TomlString.NormBasicStr` | base/peacock-oobe/toml.c:493-623 | The unescaped text, or nothing, as the units of the source define it; no write passes the growing buffer. |
| `TomlString.NormLitStr` | base/peacock-oobe/toml.c:444-487 | A copy, or nothing if a character is forbidden; no write passes the buffer. |
| `TomlString.TomlRtos` | base/peacock-oobe/toml.c:2210-2263 | The string that a raw value denotes, or nothing. |
| `TomlSpelling.SpellingDenotes` | base/peacock-oobe/toml.c:493-623 | Whatever way each code of a list is spelled (raw, short, four or eight upper-case digits), the string is unescaped to the UTF-8 of the list, and decoding recovers the list. |
| `TomlSpelling.QuotedDenotes` | base/peacock-oobe/toml.c:2210-2263 | The same through toml_rtos for the text in quotes, for codes other than zero. |
| `TomlSpelling.DenotesItselfIff` | base/peacock-oobe/toml.c:493-623 | A text is unescaped to itself exactly when it has no backslash and no forbidden control character. |
| `TomlScan.Scan` | base/peacock-oobe/toml.c:1638-1801 | The scanning loops find the length of the string token, of all six forms, or the error. |
| `TomlScan.Next` | base/peacock-oobe/toml.c:1803-1863 | The next token after blanks and comments. |
| `TomlLexer.NextTokenFits` | base/peacock-oobe/toml.c:1803-1863 | A token takes no more than there is; only string tokens can be empty. |
| `TomlLexer.EmptyString` | base/peacock-oobe/toml.c:1788-1800 | The scanner can return a string token of length zero. |
| `TomlParser.ParseKeyval` | base/peacock-oobe/toml.c:1106-1189 | Ends on every input, by what is left of the text and the place in the grammar; a success consumes something, though tokens can be empty. |
| `TomlParser.ParseValue` | base/peacock-oobe/toml.c:1149-1186 | Ends likewise; a success leaves no more than there was. |
| `TomlParser.ParseArray` | base/peacock-oobe/toml.c:1006-1099 | Ends likewise, elements and nested arrays included; a success consumes the brackets. |
| `TomlParser.ParseInline` | base/peacock-oobe/toml.c:945-983 | Ends likewise; a success consumes the braces. |
| `TomlParser.FillPath` | base/peacock-oobe/toml.c:1201-1245 | Ends with one to ten keys and the closing bracket, or an error. |
| `TomlParser.ParseSelect` | base/peacock-oobe/toml.c:1312-1400 | Ends at a line end; the tree is the one with the path of the header walked and its table made. |
| `TomlContext.Context.NextTok` | base/peacock-oobe/toml.c:1803-1863 | The context moves to the next token. |
| `TomlContext.Context.Keyval` | base/peacock-oobe/toml.c:1106-1189 | The recursive procedure on the context computes ParseKeyval. |
| `TomlContext.Context.Elements` | base/peacock-oobe/toml.c:1011-1094 | The element loop computes ArrayItems. |
| `TomlContext.Context.Entries` | base/peacock-oobe/toml.c:949-975 | The entry loop computes InlineItems. |
| `TomlContext.Context.FillTabpath` | base/peacock-oobe/toml.c:1201-1245 | The loop fills the array of keys with the path of the header. |
| `TomlContext.Context.WalkTabpath` | base/peacock-oobe/toml.c:1250-1309 | The loop over the keys goes down the tree, making implicit tables where there are none, and comes to where Select makes the table of the header, or fails when Select does. |
| `TomlContext.Context.MakeTable` | base/peacock-oobe/toml.c:1338-1374 | The table of the header, made at the end of the walk, is in the tree that Select gives, and becomes the current one. |
| `TomlContext.Context.SelectTable` | base/peacock-oobe/toml.c:1312-1400 | The procedure on the context computes ParseSelect. |
| `TomlContext.TomlParse` | base/peacock-oobe/toml.c:1402-1478 | The loop of toml_parse ends on every text and computes Parse. |
| `TomlTree.KeyInEnumerates` | base/peacock-oobe/toml.c:1865-1878 | toml_key_in numbers the keys of the three lists. |
| `TomlTree.AddValueValid` | base/peacock-oobe/toml.c:736-773 | Adding a value under an absent key keeps the invariant of the tree. |
| `TomlTree.AddTableValid` | base/peacock-oobe/toml.c:777-821 | Adding a table under an absent key keeps it. |
| `TomlTree.AddArrayValid` | base/peacock-oobe/toml.c:825-862 | Adding an array under an absent key keeps it. |
| `TomlInvariant.ParseKeyvalValid` | base/peacock-oobe/toml.c:1106-1189 | Every entry, however deep, keeps the invariant: in no table, also in arrays, a key twice over the three lists. |
| `TomlInvariant.SelectValid` | base/peacock-oobe/toml.c:1250-1374 | Every header keeps it. |
| `TomlInvariant.SelectedThere` | base/peacock-oobe/toml.c:1250-1374 | The path of a header leads to the table that it makes current. |
| `TomlInvariant.FoundOnce` | base/peacock-oobe/toml.c:692-728 | In a valid table a key is in one list at most, so lookups by key are unambiguous. |
| `TomlDocument.ParseLines` | base/peacock-oobe/toml.c:1434-1463 | From every state of the loop on, a success gives a valid tree; the current table always exists. |
| `TomlDocument.Parse` | base/peacock-oobe/toml.c:1402-1478 | After every successful parse no table of the tree has a key twice, at any depth. |
| `TomlDocument.KeysNumberedOnce` | base/peacock-oobe/toml.c:1865-1922 | toml_key_in names each key once, and looking the key up finds it. |
| `TomlGrowth.LinesOnlyAdd` | base/peacock-oobe/toml.c:1434-1463 | From any state of the parser on, no later line changes, moves or removes a value, an element or a table, makes a table implicit again or takes the read-only mark away. |
| `TomlFrozen.EntryFreezes` | base/peacock-oobe/toml.c:1106-1189 | No entry changes a read-only table, however deep; into a read-only table none can be read. |
| `TomlFrozen.HeaderFreezesIff` | base/peacock-oobe/toml.c:1250-1374 | A header, with one bracket or two, leaves all read-only tables as they are exactly when its path leads through none, also through the last tables of arrays. |
| `TomlFrozen.ReadonlyKeptIff` | base/peacock-oobe/toml.c:1434-1463 | From any state of the parser on, every read-only table is kept to the end of the document exactly when no line works along a path through one. |
| `TomlFrozen.InlineTableChanged` | base/peacock-oobe/toml.c:1250-1309 | The text with the two lines a={} and [a.z] parses, and the inline table a has the table z. |
| `TomlValues.TextToken` | base/peacock-oobe/toml.c:1638-1801 | A text in double quotes, in any mix of spellings without three single quotes in a row, is read as one token, whatever follows but a double quote. |
| `TomlReadBack.ItemParses` | base/peacock-oobe/toml.c:1011-1094 | An element of an array, a text, an array or an inline table of any depth and layout, is parsed to the item built from its parts, and the parser comes to the token behind it. |
| `TomlReadBack.ArrayParses` | base/peacock-oobe/toml.c:1006-1099 | An array with any elements, blanks, line ends, comments and a last comma is parsed to the array of its items. |
| `TomlReadBack.InlineParses` | base/peacock-oobe/toml.c:945-983 | An inline table with any entries under distinct keys is parsed to the read-only table of its entries. |
| `TomlReadBack.FieldParses` | base/peacock-oobe/toml.c:1106-1189 | An entry under a free key is put into the table, and the parser comes to the token behind it. |
| `TomlReadBack.ItemStands` | base/peacock-oobe/toml.c:2210-2263 | What the parser makes of a value stands for it: a raw value that toml_rtos turns into the text, an item for each element in order and the kind they share, a table with the entries found under their keys. |
| `TomlSections.SectionParses` | base/peacock-oobe/toml.c:1312-1463 | A header with one bracket or two and the lines below it: the table of the lines comes under the name, or behind the tables of the array under the name. |
| `TomlSections.DocumentReadBack` | base/peacock-oobe/toml.c:1402-1478 | Every document of lines key = value and sections [name] or [[name]] with such lines, in any layout, parses, and in its tree every line and every section stands, and nothing else. |
| `TomlSections.LinesReadBack` | base/peacock-oobe/toml.c:1402-1478 | A document of lines alone parses to a tree with one child for each line, in which its value stands. |
| `TomlSections.TextsReadBack` | base/peacock-oobe/toml.c:1006-1099 | The line key = [ q1, .., qn ] with any layout parses to a tree with one array under the key and nothing else; it has n items of the kind of values, and toml_rtos turns item i into text i, for every list of texts and every spelling of them. |
| `TomlDotted.MainDotted` | base/peacock-oobe/toml.c:1118-1140 | From any state of the parser on, a line with a dotted key puts its value into the table at the end of the path, through tables that are there or new ones, and the parser goes on behind it. |
| `TomlDotted.DottedFound` | base/peacock-oobe/toml.c:1118-1140 | Then the value is found at the end of the path and stands for what was written, and what stands under other keys is as it was. |
| `AnswersText.ReadBackIff` | base/peacock-oobe/blueprint.c:272-276 | A written value is read as one token that denotes it exactly when it is clean: no quote, no backslash, no control character but tab, no three single quotes in a row. |
| `AnswersText.KeyReadBackIff` | base/peacock-oobe/blueprint.c:272-276 | A written key is read as one token that is the key exactly when it is a bare key that, if it begins like a date, is all date characters. |
| `AnswersText.IdentifierWritable` | base/peacock-oobe/blueprint.c:272-276 | Identifiers are such keys. |
| `AnswersFile.LineParses` | base/peacock-oobe/blueprint.c:272-276 | One written line is one new value in the section, and the parser goes on behind it. |
| `AnswersFile.SectionDoc` | base/peacock-oobe/blueprint.c:267-276 | A header and its lines are one new table in the root. |
| `AnswersRoundTrip.SavedParses` | base/peacock-oobe/blueprint.c:260-278 | The saved text parses to the tree of its three sections. |
| `AnswersRoundTrip.LoadSaved` | base/peacock-oobe/blueprint.c:224-278 | Loading what was saved gives the same flavor, flags, answers and stage statuses in the same order, for every store of clean texts under distinct writable keys. |
| `AnswersStore.SaveAnswers` | base/peacock-oobe/blueprint.c:260-278 | The text written is the one of the store. |
| `AnswersStore.LoadAnswers` | base/peacock-oobe/blueprint.c:224-258 | The store read is the one of the text. |
| `TomlRunOn.Split` | base/peacock-oobe/toml.c:493-623 | A triple-quoted string that begins with an unescaped text and runs on behind the quote and line end after it denotes what the text denotes (or the text without a last backslash), the quote, the line end, and what the rest denotes. |
| `TomlRunOn.NoFix` | base/peacock-oobe/toml.c:493-623 | Such a string never denotes two double quotes and the text, whatever lines follow, with or without a line end dropped behind the opening quotes. |
| `AnswersConverse.DirtyValue` | base/peacock-oobe/toml.c:1638-1801 | The token that begins at the opening quote of a written value that is not clean does not denote the value, wherever it ends: in its line, or any number of lines later. |
| `AnswersConverse.LoadSavedIff` | base/peacock-oobe/blueprint.c:224-278 | For every store under distinct writable keys, with values of any kind: loading what was saved gives the same store exactly when every value is clean. |
| `AnswersStore.QuoteLosesStore` | base/peacock-oobe/blueprint.c:224-278 | One quote inside an answer with a key character behind it makes the file unreadable: loading gives the empty store. |

## Left out

- SignAgreement.SignedOpens: what is needed of the curve is gathered in the predicate `Curve` and assumed: that the extended Edwards formulas stand for a group, that the base point has order L, that encoding depends only on the point, and that decompressing an encoded point gives its negative. `EdwardsLaw` and `Decompression` prove what the formulas and the decompression compute; that the addition is associative and that its denominators do not vanish is not proved.
- Tampering.TamperedIff: what is assumed of the curve is gathered in `SharpCurve`: the predicate `Curve`, that encoding tells points apart, and that a multiple of the base point is zero only for multiples of L. Signatures whose first half encodes no multiple of the base point are not covered.
- Decompression.DecodedIff: takes Fermat's little theorem for p as its premise, for every element.
- TomlSections.DocumentReadBack: keys and names are bare and do not look like dates, and values are texts in double quotes on one line, arrays and inline tables; dotted keys (see `TomlDotted.MainDotted`), quoted keys, headers with a path, the other forms of strings, numbers, booleans and dates are not in it.
- ApplyEvents.SkippedIff: conditions that are not written formulas, such as atoms without an operator, are covered by `When.BpWhenEval` only.
- Exponent.InverseTimesItself: takes Fermat's little theorem for p as its premise about the element, z^(e+1) congruent to one with e = p - 2.
- Field25519.Select: exchanges integers where the source masks with exclusive or; `Field25519.MaskExchanges` shows the masked form on 64-bit words. Constant time is not modelled.
- TomlContext.Context.Keyval: tables are values that are passed in and out, and the current table is a path from the root; pointers to tables, their allocation and freeing are not modelled.
- Apply.ApplyBlueprint: downloads and actions succeed or fail by two arbitrary functions of the stage; what they do, the environment of the child and the protocol lines printed are not modelled. Every stage put out by the ordering must have an id, since the source notes statuses by id without looking for a missing one.
- WhenMeaning.PrintedMeans: expressions up to 511 characters and atoms up to 255, the sizes of the buffers; `When.BpWhenEval` itself covers longer ones, which are cut.
- Minisign.VerifyFile: the second line of each file comes in as a value without its line end; `read_line_n` and the file system are not modelled.
- StageOrder.BpPhaseOrder: stages are named by their index in the blueprint instead of by pointer; only the first 256 are looked at, as in the source.
- Answers.Store.Set: the two parallel lists of the store, answers and stage statuses, share one class; a missing value, which the source stores as the empty text, does not occur.
- TomlParser.ParseKeyval: an error is the absence of a result; the messages and line numbers of the source are not modelled.
- The element types of arrays (`valtype`, `toml_array_type`) and the values other than strings and booleans: integers, floats and timestamps rest on `strtoll` and `strtod`.
- `bp_load` from the tree to stages, `bp_expand`, `bp_validate` (POSIX regular expressions), `bp_fetch_flavors`.
- Failure of memory allocation.
- Salsa20, secretbox, box and the X25519 entry point of TweetNaCl.
- The wizard and every other user interface, fork and exec, curl and wget, reading and renaming files.
