# Verified models of zipologger's cryptographic arithmetic, RLP codec and message queue

This Dafny 4.11 project models three parts of zipologger and proves what they promise:

- the scalar multiplication of the bundled libsecp256k1: arithmetic modulo the field prime and the group
  order, the endomorphism split, two signed-digit recodings, and the three loops that multiply points;
- the RLP codec (Appendix B of the Ethereum Yellow Paper): the encoder that keeps list headers apart, the pull
  decoder, the slice-based splitter, the incremental reader, and the codec for structs;
- three smaller parts: strict DER signatures, the streaming part of SHA-256, and the logger's queue.

`dafny verify dfyconfig.toml` checks everything.

## How it is modelled

Code that changes arrays and objects step by step is modelled by methods over arrays and classes with the same
branches, constants and order. Each method is proved against a value: the number that a row of limbs stands
for, the bytes that a buffer stands for, the tree that an input encodes. The laws are then lemmas about those
values, or methods that combine the others.

- Machine words are integers confined to their range. Dafny checks that they stay in it wherever the source
  does not rely on wrapping. Where it does, the wrap is written out as a remainder, and so is the conversion to
  a 32-bit `int`.
- The build modelled is the one that `internal/crypto/secp256k1/secp256.go:17-31` selects: 5x52 field limbs, 4x64
  scalar limbs, no big-number library, endomorphism on, windows of 5 and 15 bits.
- A point is a vector of integer coefficients over the point A, the generator G and the unknown offset point
  of the generator table. Adding points adds vectors, the map lambda multiplies by the number lambda, and
  results are compared modulo the group order.
- Automatic induction is switched off for every lemma, so that each inductive proof is written out.

| modules | what they model |
|---|---|
| `Machine`, `Bits`, `Bytes`, `Congruence` | words, bit fields, big-endian numbers, congruence |
| `FieldMul`, `Field5x52` | field multiplication; normal form and bytes of field elements |
| `ScalarMul`, `Scalar`, `ScalarBytes`, `ScalarSplit` | arithmetic modulo the order, bytes of scalars, the endomorphism split |
| `Points`, `Wnaf`, `Ecmult`, `EcmultConst`, `EcmultGen` | recodings, tables and the three multiplication loops |
| `Der`, `Sha256` | DER signatures; buffering and padding of SHA-256 |
| `RlpSpec`, `RlpHeaders` | the encoding as a recursive function; headers |
| `RlpEncode`, `RlpCalls`, `RlpReader` | the encoder's buffer, any sequence of calls on it, and the reader over it |
| `RlpStream`, `RlpLimits`, `RlpDecode`, `RlpRoundTrip` | the pull decoder, any sequence of calls on it; untyped trees; both directions together |
| `RlpRaw` | splitting, counting and iterating without decoding |
| `RlpFields`, `RlpSchema`, `RlpMeaning` | struct tags, typed values and the trees they are written as, and what those trees mean |
| `RlpStruct`, `RlpTagged` | the writers and decoders of types, and structs from their tags to a round trip |
| `Logger` | the queue, the writing goroutine and Wait as interleaved steps |

## Where the code does not do what it seems to promise

- **List sizes can exceed the input limit.** `Stream.Kind` compares the size of a list with what the enclosing
  list had left before the header was read (`internal/rlp/decode.go:1018-1033`), so a list can be entered that no
  longer fits, and `Stream.List` then subtracts past 0 in a `uint64`. `RlpStream.OverdrawnList` gives the input
  C1 C1 01. `RlpLimits.Drive` proves when the sizes stay within the limit: in a run of any calls, exactly if every
  list that is entered lies within the one around it.
- **A list can be decoded past the end of the one around it**, for the same reason. `RlpDecode.DecodeOverrun` is
  such a run. `RlpDecode.DecodeInterface` and `RlpStruct.DecodeValue` state exactly what is accepted, and
  `RlpDecode.AheadAdmitted` how it differs from what lies within the limits. The enclosing list is then not
  accepted: `RlpDecode.DecodeSliceElems` shows that a size that wrapped around is never taken for the end of a
  list. So `DecodeBytes`, untyped or into a type, which starts outside of any list, accepts exactly the encodings.
- **A nil byte slice tagged "tail" can be lost.** A byte slice is written and read as one string even with this
  tag (`internal/rlp/encode.go:164-167`, `internal/rlp/decode.go:263-271`). Behind an optional field that is set, a
  nil one is dropped by the writer, and the decoder, for which the field is not optional, then reports too few
  elements. `RlpTagged.ByteTailLost` gives such a struct. The test for zero (`internal/rlp/encode.go:367-372`) looks at
  all fields of a nested struct, so an unexported one is enough to keep it: `RlpTagged.HiddenTailLost`.
  `RlpSchema.RoundTrip` proves that every other value comes back and these never do.
- **The largest magnitude.** `secp256k1_fe_verify` accepts magnitude 2048
  (`internal/crypto/secp256k1/libsecp256k1/src/field_5x52_impl.h:43`), at which the lowest limb can wrap around in the
  first pass of normalisation. `Field5x52.LargestMagnitude` gives such an element, `Field5x52.MagnitudeFits` proves
  that every smaller magnitude is safe, and `Field5x52.Normalize` that the result is right exactly if
  a[0] + 0x1000003D1 * (a[4] >> 48) is below 2^64.
- **Windows of 31 bits.** `secp256k1_ecmult_wnaf` allows them, but the carry shifted by 31 does not fit an `int`
  (`internal/crypto/secp256k1/libsecp256k1/src/ecmult_impl.h:267-270`). `Wnaf.WordFits` proves that 32-bit
  wrapping gives the right digit, and that everything fits exactly if the window is shorter or there is no carry.
- **A comment on the constant-time recoding.** It says that the number of words is returned
  (`internal/crypto/secp256k1/libsecp256k1/src/ecmult_const_impl.h:49`); the code returns the skew, and so does
  `EcmultConst.WnafConst`.

## Model

| member | source | states |
|---|---|---|
| `FieldMul.DiagonalBounds` | internal/crypto/secp256k1/libsecp256k1/src/field_5x52_int128_impl.h:36-128 | with operands of 56/56/56/56/52 bits, each of the nine sums of limb products stays within the bound the code annotates, so no 128-bit accumulator wraps |
| `FieldMul.Folded` | internal/crypto/secp256k1/libsecp256k1/src/field_5x52_int128_impl.h:40-150 | replacing the parts at and above 2^260 by their multiples of 0x1000003D10 keeps the product's residue modulo p |
| `FieldMul.FeMulInner` | internal/crypto/secp256k1/libsecp256k1/src/field_5x52_int128_impl.h:18-151 | for limbs of 56/56/56/56/52 bits, the result has limbs of 52/52/52/52/49 bits and is congruent to the product modulo p; all intermediate words are in range |
| `FieldMul.FeSqrInner` | internal/crypto/secp256k1/libsecp256k1/src/field_5x52_int128_impl.h:155-275 | squaring meets the contract of multiplication with both operands equal, although it computes with doubled limbs |
| `Field5x52.FirstPass` | internal/crypto/secp256k1/libsecp256k1/src/field_5x52_impl.h:54-74 | when the middle limbs have room for the carries, the first pass leaves limbs of 52 bits and a value below 2p that differs by a multiple of p, and by the 2^64 that are lost if the lowest limb wraps around |
| `Field5x52.Normalize` | internal/crypto/secp256k1/libsecp256k1/src/field_5x52_impl.h:54-95 | the result is the canonical representative in [0,p) of what the first pass leaves, and congruent to the element exactly if the lowest limb does not wrap around there; this covers every magnitude that is accepted |
| `Field5x52.MagnitudeFits` | internal/crypto/secp256k1/libsecp256k1/src/field_5x52_impl.h:34-74 | every accepted magnitude leaves the middle limbs room for the carries, and up to 2047 the lowest limb does not wrap around |
| `Field5x52.LargestMagnitude` | internal/crypto/secp256k1/libsecp256k1/src/field_5x52_impl.h:34-74 | at magnitude 2048, which is accepted too, the lowest limb can wrap around: a concrete element |
| `Field5x52.LossMatters` | internal/crypto/secp256k1/libsecp256k1/src/field_5x52_impl.h:54-74 | a result that misses 2^64 is not congruent to what it should be, so the wrap always gives a wrong element |
| `Field5x52.NormalizeVar` | internal/crypto/secp256k1/libsecp256k1/src/field_5x52_impl.h:121-162 | the variable-time form meets the same contract |
| `Field5x52.CanonicalUnique` | internal/crypto/secp256k1/libsecp256k1/src/field_5x52_impl.h:54-163 | two canonical elements with congruent values are equal limb by limb, so both forms of normalisation give the same limbs |
| `Field5x52.NormalizesToZero` | internal/crypto/secp256k1/libsecp256k1/src/field_5x52_impl.h:165-186 | true exactly when the value, less the 2^64 that are lost if the lowest limb wraps around, is a multiple of p |
| `Field5x52.NormalizesToZeroVar` | internal/crypto/secp256k1/libsecp256k1/src/field_5x52_impl.h:188-227 | the early exits on the lowest limb never change the answer, which is that of the other form |
| `Field5x52.LowestLimbDecides` | internal/crypto/secp256k1/libsecp256k1/src/field_5x52_impl.h:193-209 | why the early exit is right: a lowest limb that is neither 0 nor that of p rules out a multiple of p |
| `Field5x52.SetB32` | internal/crypto/secp256k1/libsecp256k1/src/field_5x52_impl.h:286-307 | the 32 bytes are read as a big-endian number; success exactly if it is below p |
| `Field5x52.GetB32` | internal/crypto/secp256k1/libsecp256k1/src/field_5x52_impl.h:309-325 | the bytes are the big-endian form of a canonical element |
| `Field5x52.ElementThroughBytes` | internal/crypto/secp256k1/libsecp256k1/src/field_5x52_impl.h:286-325 | a canonical element comes back limb by limb from its bytes |
| `Field5x52.BytesThroughElement` | internal/crypto/secp256k1/libsecp256k1/src/field_5x52_impl.h:286-325 | 32 bytes are accepted exactly if they are below p, and then come back unchanged |
| `Field5x52.Negate` | internal/crypto/secp256k1/libsecp256k1/src/field_5x52_impl.h:327-342 | the negation is congruent to -a and its magnitude grows by one, for every magnitude whose successor is accepted |
| `ScalarMul.MulAdd` | internal/crypto/secp256k1/libsecp256k1/src/scalar_4x64_impl.h:187-200 | the 192-bit accumulator grows by a*b without overflow of its top word |
| `ScalarMul.MulAddFast` | internal/crypto/secp256k1/libsecp256k1/src/scalar_4x64_impl.h:202-213 | the same where the top word cannot be needed |
| `ScalarMul.MulAdd2` | internal/crypto/secp256k1/libsecp256k1/src/scalar_4x64_impl.h:216-235 | the accumulator grows by 2*a*b, with all five carries accounted for |
| `ScalarMul.SumAdd` | internal/crypto/secp256k1/libsecp256k1/src/scalar_4x64_impl.h:238-245 | the accumulator grows by one word |
| `ScalarMul.Mul512` | internal/crypto/secp256k1/libsecp256k1/src/scalar_4x64_impl.h:579-744 | the eight words are the exact product of the two four-word numbers |
| `ScalarMul.Sqr512` | internal/crypto/secp256k1/libsecp256k1/src/scalar_4x64_impl.h:746-889 | the shorter squaring gives the same eight words as multiplying a number by itself |
| `ScalarMul.CheckOverflow` | internal/crypto/secp256k1/libsecp256k1/src/scalar_4x64_impl.h:57-67 | true exactly when the number is not below the order |
| `ScalarMul.Reduce` | internal/crypto/secp256k1/libsecp256k1/src/scalar_4x64_impl.h:69-81 | subtracts the order once when told to, as arithmetic modulo 2^256 |
| `ScalarMul.Fold512` | internal/crypto/secp256k1/libsecp256k1/src/scalar_4x64_impl.h:515-540 | first fold: the eight words become a congruent number whose seventh word is at most 1 |
| `ScalarMul.Fold385` | internal/crypto/secp256k1/libsecp256k1/src/scalar_4x64_impl.h:542-561 | second fold: the seven words become a congruent number whose fifth word is at most 2 |
| `ScalarMul.Fold258` | internal/crypto/secp256k1/libsecp256k1/src/scalar_4x64_impl.h:563-572 | last fold: the congruent number fits four words, with at most one carry left over |
| `ScalarMul.FoldsReduce` | internal/crypto/secp256k1/libsecp256k1/src/scalar_4x64_impl.h:515-576 | after the three folds, the final carry and the overflow flag are never both set, and subtracting once gives the residue |
| `ScalarMul.Reduce512` | internal/crypto/secp256k1/libsecp256k1/src/scalar_4x64_impl.h:270-577 | the result is the 512-bit number modulo the order, in canonical form |
| `ScalarMul.Multiply` | internal/crypto/secp256k1/libsecp256k1/src/scalar_4x64_impl.h:891-895 | the canonical product modulo the order |
| `ScalarMul.Square` | internal/crypto/secp256k1/libsecp256k1/src/scalar_4x64_impl.h:909-914 | the canonical square modulo the order |
| `Scalar.Add` | internal/crypto/secp256k1/libsecp256k1/src/scalar_4x64_impl.h:83-97 | the sum of two reduced scalars, reduced, and whether the order was subtracted |
| `Scalar.Negate` | internal/crypto/secp256k1/libsecp256k1/src/scalar_4x64_impl.h:140-150 | 0 for 0, otherwise the order minus the scalar |
| `Scalar.IsHigh` | internal/crypto/secp256k1/libsecp256k1/src/scalar_4x64_impl.h:156-166 | true exactly when the scalar is above half the order |
| `Scalar.CondNegate` | internal/crypto/secp256k1/libsecp256k1/src/scalar_4x64_impl.h:168-181 | negates when the flag is set and returns the sign, also for 0 |
| `Scalar.Split128` | internal/crypto/secp256k1/libsecp256k1/src/scalar_4x64_impl.h:916-925 | the two halves of the number, each below 2^128 |
| `Scalar.GetBitsVar` | internal/crypto/secp256k1/libsecp256k1/src/scalar_4x64_impl.h:41-55 | a bit field anywhere in the number, also across two words |
| `Scalar.CaddBit` | internal/crypto/secp256k1/libsecp256k1/src/scalar_4x64_impl.h:99-115 | adds 2^bit when the flag is set, and nothing otherwise |
| `Scalar.ShrInt` | internal/crypto/secp256k1/libsecp256k1/src/scalar_4x64_impl.h:897-907 | shifts right and returns the bits shifted out |
| `Scalar.MulShiftVar` | internal/crypto/secp256k1/libsecp256k1/src/scalar_4x64_impl.h:932-947 | the product shifted right, rounded to nearest by the bit below |
| `ScalarBytes.SetB32` | internal/crypto/secp256k1/libsecp256k1/src/scalar_4x64_impl.h:117-127 | the big-endian number reduced once, and whether it was not below the order |
| `ScalarBytes.GetB32` | internal/crypto/secp256k1/libsecp256k1/src/scalar_4x64_impl.h:129-134 | 32 bytes whose big-endian number is the scalar |
| `ScalarSplit.RoundedQuotients` | internal/crypto/secp256k1/libsecp256k1/src/scalar_impl.h:320-356 | both rounded quotients are close enough: the lattice remainders stay below 2^128 in absolute value |
| `ScalarSplit.ShortComponents` | internal/crypto/secp256k1/libsecp256k1/src/scalar_impl.h:296-333 | the rounding error of the shift by 272 and the lattice constants bound both components by 2^128 |
| `ScalarSplit.LatticeBasis` | internal/crypto/secp256k1/libsecp256k1/src/scalar_impl.h:296-333 | the two basis vectors lie in the lattice of pairs (x, y) with x + lambda*y congruent to 0 modulo the order |
| `ScalarSplit.SplitLambda` | internal/crypto/secp256k1/libsecp256k1/src/scalar_impl.h:334-366 | r1 + lambda*r2 is congruent to the scalar, and each of r1 and r2, or its negation modulo the order, is below 2^128 |
| `Wnaf.TakeWindow` | internal/crypto/secp256k1/libsecp256k1/src/ecmult_impl.h:262-275 | one window takes its bits and the carry into one odd digit of fewer than w bits and a new carry, keeping the number recoded so far |
| `Wnaf.WordFits` | internal/crypto/secp256k1/libsecp256k1/src/ecmult_impl.h:267-270 | the digit computed in 32-bit ints is the right one; the shifted carry and the difference fit an int exactly if w < 31 or there is no carry, and wrap around otherwise |
| `Wnaf.EcmultWnaf` | internal/crypto/secp256k1/libsecp256k1/src/ecmult_impl.h:235-284 | digits are odd, below 2^(w-1) in absolute value and at least w positions apart; none at or above the returned length; their sum and the carry out are the low bits of the sign-normalised scalar |
| `Wnaf.NoCarryOut` | internal/crypto/secp256k1/libsecp256k1/src/ecmult_impl.h:277-282 | a number below 2^(len-1) leaves no carry, so its digits sum to it exactly |
| `Ecmult.FormIsExact` | internal/crypto/secp256k1/libsecp256k1/src/ecmult_impl.h:228-284 | the signed sum of the digits is congruent to the scalar modulo the order |
| `Ecmult.OddMultiplesTable` | internal/crypto/secp256k1/libsecp256k1/src/ecmult_impl.h:52-85 | entry i of the table is (2i+1) times the point |
| `Ecmult.TableGet` | internal/crypto/secp256k1/libsecp256k1/src/ecmult_impl.h:134-143 | looking up an odd digit, negating for negative ones, gives that multiple of the point |
| `Ecmult.EcmultContext.Build` | internal/crypto/secp256k1/libsecp256k1/src/ecmult_impl.h:164-194 | the two tables hold the odd multiples of G and of 2^128*G; building again changes nothing |
| `Ecmult.ShortWnaf` | internal/crypto/secp256k1/libsecp256k1/src/ecmult_impl.h:316-320 | the form of a short scalar sums to its signed value, with no carry lost |
| `Ecmult.LambdaTable` | internal/crypto/secp256k1/libsecp256k1/src/ecmult_impl.h:343-346 | multiplying a table by lambda gives the table of lambda times the point |
| `Ecmult.FormsOfNa` | internal/crypto/secp256k1/libsecp256k1/src/ecmult_impl.h:312-324 | the two forms of the split scalar add up, with weight lambda, to na modulo the order |
| `Ecmult.FormsOfNg` | internal/crypto/secp256k1/libsecp256k1/src/ecmult_impl.h:348-359 | the two forms of ng add up, with weight 2^128, to ng exactly |
| `Ecmult.CombinationStep` | internal/crypto/secp256k1/libsecp256k1/src/ecmult_impl.h:371-388 | one round, a doubling and up to four additions, doubles both multiples and adds the digits of this position |
| `Ecmult.StraussLoop` | internal/crypto/secp256k1/libsecp256k1/src/ecmult_impl.h:367-399 | the loop over the four forms computes the combination of the two points with the forms' sums |
| `Ecmult.Multiply` | internal/crypto/secp256k1/libsecp256k1/src/ecmult_impl.h:286-404 | the result is na*A + ng*G, for all scalars below the order and every point A |
| `EcmultConst.SkewAndSign` | internal/crypto/secp256k1/libsecp256k1/src/ecmult_const_impl.h:78-93 | makes the scalar odd and below 2^129 up to sign; sign times the new scalar is congruent to the old one plus the skew, also for minus one |
| `EcmultConst.Skewed` | internal/crypto/secp256k1/libsecp256k1/src/ecmult_const_impl.h:78-93 | why the correction is right in each case, including the scalar to which 2 cannot be added |
| `EcmultConst.NextRemaining` | internal/crypto/secp256k1/libsecp256k1/src/ecmult_const_impl.h:97-113 | each word, made odd by borrowing from the next one, keeps the total of digits written and words left |
| `EcmultConst.WnafConst` | internal/crypto/secp256k1/libsecp256k1/src/ecmult_const_impl.h:45-119 | all WNAF_SIZE(w)+1 digits are odd and below 2^w in absolute value, and their base-2^w sum is congruent to scalar + skew |
| `EcmultConst.ConstTableGet` | internal/crypto/secp256k1/libsecp256k1/src/ecmult_const_impl.h:22-42 | the scan over the whole table, with a conditional negation, gives the digit's multiple of the point |
| `EcmultConst.HeldStep` | internal/crypto/secp256k1/libsecp256k1/src/ecmult_const_impl.h:179-197 | one round of four doublings and two additions shifts the digits taken so far by one position and adds the next |
| `EcmultConst.Correction` | internal/crypto/secp256k1/libsecp256k1/src/ecmult_const_impl.h:201-236 | the point added at the end is minus skew times A |
| `EcmultConst.MultiplyConst` | internal/crypto/secp256k1/libsecp256k1/src/ecmult_const_impl.h:122-237 | the result is q*A for every scalar below the order |
| `EcmultGen.RowMasksCancel` | internal/crypto/secp256k1/libsecp256k1/src/ecmult_gen_impl.h:60-79 | the offsets mixed into the 64 rows of the table sum to 0 |
| `EcmultGen.ComputeTable` | internal/crypto/secp256k1/libsecp256k1/src/ecmult_gen_impl.h:32-86 | entry i of row j is i*16^j*G plus the row's offset |
| `EcmultGen.EcmultGenContext.Build` | internal/crypto/secp256k1/libsecp256k1/src/ecmult_gen_impl.h:21-92 | a built context has the table, and its initial point is minus the blinding scalar times G |
| `EcmultGen.EcmultGenContext.Blind` | internal/crypto/secp256k1/libsecp256k1/src/ecmult_gen_impl.h:159-208 | re-blinding keeps the table and makes the initial point the new scalar times G, with its negation as the blinding scalar, whatever the blinding was before |
| `EcmultGen.EcmultGenContext.Multiply` | internal/crypto/secp256k1/libsecp256k1/src/ecmult_gen_impl.h:124-156 | in every built and blinded context, the sum of one entry of each row and the initial point is gn*G |
| `EcmultGen.WholeSum` | internal/crypto/secp256k1/libsecp256k1/src/ecmult_gen_impl.h:124-156 | 64 table entries for the digits of gn + blind, and the initial point, add up to gn*G |
| `EcmultGen.Reblind` | internal/crypto/secp256k1/libsecp256k1/src/ecmult_gen_impl.h:159-208 | any sequence of re-blindings, with a seed or as a reset without one, leaves a valid context |
| `Der.DerReadLen` | internal/crypto/secp256k1/libsecp256k1/src/ecdsa_impl.h:49-99 | succeeds exactly on length octets in their shortest form, in the long form only if the input has that many bytes left; returns the length as an int |
| `Der.DerParseInteger` | internal/crypto/secp256k1/libsecp256k1/src/ecdsa_impl.h:101-145 | accepts exactly the minimal INTEGERs, consumes them, and gives their scalar: 0 for a negative one or one not below the order |
| `Der.SigParse` | internal/crypto/secp256k1/libsecp256k1/src/ecdsa_impl.h:147-177 | accepts exactly a SEQUENCE of two minimal INTEGERs that is the whole input, and gives both scalars |
| `Der.SigSerialize` | internal/crypto/secp256k1/libsecp256k1/src/ecdsa_impl.h:179-201 | writes the encoding of the two scalars if the buffer has room, touches nothing else, and always tells the size |
| `Der.Stripped` | internal/crypto/secp256k1/libsecp256k1/src/ecdsa_impl.h:180-186 | stripping leading zeros leaves the shortest contents that stay positive |
| `Der.ContentOf` | internal/crypto/secp256k1/libsecp256k1/src/ecdsa_impl.h:116-144 | minimal contents that are not negative are the only ones of their number |
| `Der.MinimalIsShortest` | internal/crypto/secp256k1/libsecp256k1/src/ecdsa_impl.h:116-131 | the contents that are accepted are exactly the shortest ones of their number in two's complement |
| `Der.SerializedParses` | internal/crypto/secp256k1/libsecp256k1/src/ecdsa_impl.h:147-201 | the encoding of any two scalars is accepted and stands for them |
| `Der.ParsedSerializes` | internal/crypto/secp256k1/libsecp256k1/src/ecdsa_impl.h:147-201 | an accepted input that gives two scalars other than 0 is the encoding of those scalars |
| `Der.ShortestSignature` | internal/crypto/secp256k1/libsecp256k1/src/ecdsa_impl.h:147-201 | tags and lengths of the signatures with one octet for each number |
| `Der.SerializeThenParse` | internal/crypto/secp256k1/libsecp256k1/src/ecdsa_impl.h:147-201 | serialising two scalars and parsing the result gives them back |
| `Sha256.Sha256.Write` | internal/crypto/secp256k1/libsecp256k1/src/hash_impl.h:131-146 | after any write, the state is the fold of the transform over the whole blocks of everything written, and the buffer holds the last bytes mod 64 bytes |
| `Sha256.Sha256.Finalize` | internal/crypto/secp256k1/libsecp256k1/src/hash_impl.h:148-162 | the digest is 32 bytes: word i, most significant byte first, is word i of the state folded over the message padded as in section 5.1.1 of FIPS 180-4; nothing is left in the buffer and the state is cleared |
| `Sha256.PaddedShape` | internal/crypto/secp256k1/libsecp256k1/src/hash_impl.h:152-156 | the padded message is the message, the byte 80, zeros and the length in bits, and ends with the first block that has room for that |
| `Sha256.ZeroCountLeast` | internal/crypto/secp256k1/libsecp256k1/src/hash_impl.h:155-155 | the number of zero bytes is the least that leaves 8 bytes in the last block |
| `Sha256.SizeBytes` | internal/crypto/secp256k1/libsecp256k1/src/hash_impl.h:153-156 | the two 32-bit words of the length field are the 64-bit length in bits |
| `Sha256.InitialIsRoots` | internal/crypto/secp256k1/libsecp256k1/src/hash_impl.h:36-43 | word i of the initial state is the first 32 bits of the fractional part of the square root of the i-th prime, as section 5.3.3 of FIPS 180-4 prescribes |
| `Sha256.FoldConcat` | internal/crypto/secp256k1/libsecp256k1/src/hash_impl.h:134-141 | folding over whole blocks and then over the rest is folding over both, so the cuts between writes do not matter |
| `Sha256.HashPieces` | internal/crypto/secp256k1/libsecp256k1/src/hash_impl.h:131-162 | however a message shorter than 2^61 bytes is cut into writes, the eight words of the digest are those of the state folded over the whole padded message |
| `RlpSpec.PrefixFree` | internal/rlp/decode.go:1038-1096 | what an input starts with determines the encoded tree and what follows it |
| `RlpSpec.ParsedHeader` | internal/rlp/decode.go:1038-1121 | a header that is accepted is the one that would be written for its kind and size |
| `RlpSpec.WrittenHeader` | internal/rlp/encode.go:124-134 | a header that is written is accepted, whatever follows it |
| `RlpSpec.EncodingsByLength` | internal/rlp/encode.go:104-134 | a byte below 80 is its own encoding; up to 55 bytes of contents follow one tag byte, and more follow a tag and the shortest form of their length |
| `RlpHeaders.IntSize` | internal/rlp/encode.go:488-495 | the number of bytes of the shortest form, at least one |
| `RlpHeaders.PutInt` | internal/rlp/encode.go:429-486 | writes the shortest big-endian form, in each of the eight ranges, and touches nothing else |
| `RlpHeaders.HeadSize` | internal/rlp/encode.go:115-122 | the length of the header that puthead writes |
| `RlpHeaders.PutHead` | internal/rlp/encode.go:124-134 | writes the header for a size at its place, needs exactly that room, and touches nothing else |
| `RlpEncode.EncBuffer.List` | internal/rlp/encbuffer.go:194-197 | opens a list; the frames of the lists around it stay as they are |
| `RlpEncode.EncBuffer.ListEnd` | internal/rlp/encbuffer.go:199-207 | closes the innermost list: its header and contents join the list around it, and its recorded size is the length of its contents, nested headers included |
| `RlpEncode.HoldsFinish` | internal/rlp/encbuffer.go:194-207 | the difference of sizes that listEnd computes is the length of the list's contents, and the buffer then stands for the frames with the list closed |
| `RlpEncode.RenderNest` | internal/rlp/encbuffer.go:65-80 | a closed list in the out-of-line form is what came before it, its header, and its contents |
| `RlpEncode.EncBuffer.Write` | internal/rlp/encbuffer.go:107-110 | adds bytes to the innermost open list |
| `RlpEncode.EncBuffer.WriteBool` | internal/rlp/encbuffer.go:113-119 | adds the encoding of 0 or 1 |
| `RlpEncode.EncBuffer.WriteUint64` | internal/rlp/encbuffer.go:121-132 | adds the encoding of the integer's shortest form |
| `RlpEncode.EncBuffer.WriteBytes` | internal/rlp/encbuffer.go:134-142 | adds the encoding of the string |
| `RlpEncode.EncBuffer.EncodeStringHeader` | internal/rlp/encbuffer.go:218-226 | adds the header of a string of this size |
| `RlpEncode.EncBuffer.Size` | internal/rlp/encbuffer.go:53-56 | with no list open, the exact length of the output |
| `RlpEncode.EncBuffer.CopyTo` | internal/rlp/encbuffer.go:65-80 | puts exactly the recursive encoding at its place, and nothing beyond it, so no header write needs room that is not there |
| `RlpEncode.EncBuffer.MakeBytes` | internal/rlp/encbuffer.go:58-63 | the output as a slice of its exact length |
| `RlpEncode.EncBuffer.WriteTo` | internal/rlp/encbuffer.go:82-104 | the writer receives the output, or if it fails, exactly the part it took before that |
| `RlpEncode.EncBuffer.WriteItem` | internal/rlp/encode.go:286-341 | writing a tree adds its recursive encoding to the innermost open list |
| `RlpCalls.Replay` | internal/rlp/encbuffer.go:53-207 | for every well-nested sequence of list, listEnd and Write calls, the output is what encoding every list where it stands would give |
| `RlpCalls.AfterClose` | internal/rlp/encbuffer.go:199-207 | closing a list puts its header and contents at the end of the list around it, as the nested encoding does |
| `RlpEncode.EncodeToBytes` | internal/rlp/encode.go:77-86 | the encoding of the tree |
| `RlpReader.EncReader.Next` | internal/rlp/encbuffer.go:262-293 | the next piece continues the output; a piece that is left over comes first, so the shared scratch buffer is not overwritten |
| `RlpReader.EncReader.Read` | internal/rlp/encbuffer.go:237-257 | delivers the next bytes of the output, as many as fit; the end is reported exactly when the rest fits |
| `RlpReader.EncodeToReader` | internal/rlp/encode.go:88-102 | the size of the encoding and a reader that has all of it to deliver |
| `RlpReader.ReadAll` | internal/rlp/encbuffer.go:230-293 | reads of any sizes, zero included, deliver the encoding from its start without gaps, and the end is reported exactly when all has been asked for |
| `RlpStream.Stream.constructor` | internal/rlp/decode.go:616-620 | a new stream; the limit is the one given or the length of a reader that has one |
| `RlpStream.Stream.Payload` | internal/rlp/decode.go:622-630 | a stream in front of the payload of a list, limited to its length |
| `RlpStream.Stream.WillRead` | internal/rlp/decode.go:1156-1175 | takes n bytes from the innermost list and the input limit exactly if both have them; inside a list within the limit, the input limit is never the one that fails |
| `RlpStream.Stream.ReadUint` | internal/rlp/decode.go:1098-1121 | the big-endian number; a leading zero is refused |
| `RlpStream.Stream.ReadKind` | internal/rlp/decode.go:1038-1096 | succeeds exactly on a well-formed header that can be taken from the limits, and consumes it; each refusal is the error that the first failing test gives |
| `RlpStream.Stream.Kind` | internal/rlp/decode.go:1001-1036 | the header is read once, then the same answer is given, errors included; inside a list with room for the header, a size above what the list has left is refused as too large for the list, and otherwise header and value together against the input limit |
| `RlpStream.Refusals` | internal/rlp/decode.go:1001-1175 | which error is given, case by case from the bytes, the size of the innermost list and the input limit: the end of the list, the end of the input, a header too large for list, limit or input, a header not in its shortest form, a value too large |
| `RlpStream.Stream.Bytes` | internal/rlp/decode.go:632-656 | succeeds exactly on a string that is not a misencoded byte and that can be read, and consumes it; a list and a misencoded byte have their own errors, and a refused header gives the error of Kind |
| `RlpStream.Stream.Uint` | internal/rlp/decode.go:742-773 | succeeds exactly on an integer in its shortest form of at most that many bits; a list, a zero byte and too many bytes have their own errors, and a refused header gives the error of Kind |
| `RlpStream.Stream.List` | internal/rlp/decode.go:793-815 | enters a list, which is never larger than what the list around it had left before its header; the sum of the list sizes stays within the input limit exactly if header and list fit the one around it; a value of another kind stays ahead; a refused header gives the error of Kind |
| `RlpStream.Stream.ListEnd` | internal/rlp/decode.go:817-830 | leaves a list exactly at its end |
| `RlpStream.Stream.Raw` | internal/rlp/decode.go:689-712 | returns exactly the bytes consumed for the value, its rebuilt header being the one read; a refused header gives the error of Kind |
| `RlpStream.ListAgrees` | internal/rlp/decode.go:803-812 | opening a list keeps the sum of the sizes, unless the list around it has less left: then its size wraps around |
| `RlpStream.OverdrawnList` | internal/rlp/decode.go:793-815 | the input C1 C1 01 is entered twice although the inner list does not fit, and leaves list sizes above the input limit |
| `RlpLimits.Do` | internal/rlp/decode.go:632-830 | one call on the stream keeps the list sizes within the input limit, unless it enters a list that reaches past the one around it |
| `RlpLimits.Drive` | internal/rlp/decode.go:632-830 | over any sequence of calls, the list sizes are within the input limit in every state exactly if every list that is entered lies within the one around it |
| `RlpDecode.DecodeInterface` | internal/rlp/decode.go:515-539 | succeeds with a tree exactly if its encoding is in front, its header, read before or not, passes the checks and, for a string, all of it lies within the list around it; consumes exactly that; a refused header gives the error of Kind, and EOL and EOF occur only at the end |
| `RlpDecode.AheadAdmitted` | internal/rlp/decode.go:1018-1033 | before the header is read, what is accepted differs from what lies within the limits by the lists that reach past the end of the list around them, and by nothing else |
| `RlpDecode.AdmittedMeaning` | internal/rlp/decode.go:1018-1033 | what is accepted, from lengths alone: a string with its header fits the list around it; of a list the header fits and the contents by themselves fit |
| `RlpDecode.FrontRight` | internal/rlp/decode.go:1001-1036 | a header that has been read, put back in front of the input, is the header that the value starts with |
| `RlpDecode.DecodeOverrun` | internal/rlp/decode.go:1018-1033 | the inner list of C1 C1 01 is decoded although it reaches past the end of the outer one |
| `RlpDecode.DecodeListSlice` | internal/rlp/decode.go:297-310 | succeeds exactly if the payload is encoded trees within the input and its limit, and consumes exactly the payload |
| `RlpDecode.DecodeSliceElems` | internal/rlp/decode.go:312-339 | succeeds exactly if the rest of the list is encoded trees, and reads them to its end; a list size that wrapped around is never taken for the end |
| `RlpDecode.DecodeBytes` | internal/rlp/decode.go:90-106 | succeeds with a tree exactly when the input is that tree's encoding; trailing bytes and empty input have their own errors |
| `RlpRoundTrip.DecodeEncoded` | internal/rlp/decode.go:90-106 | decoding the encoding of any tree gives the tree |
| `RlpRoundTrip.EncodeDecoded` | internal/rlp/encode.go:75-86 | an input decodes exactly if it is the encoding of a tree, and is then encoded again as the same bytes |
| `RlpDecode.UintRead` | internal/rlp/decode.go:742-773 | the bytes accepted as an integer are the encoding of that integer, which has at most that many bits |
| `RlpDecode.UintFound` | internal/rlp/decode.go:742-773 | the encoding of an integer of at most that many bits is accepted as it |
| `RlpRaw.RawKindAgrees` | internal/rlp/raw.go:153-192 | the slice-based header parser accepts what the stream accepts, if the value is complete and not a misencoded byte |
| `RlpRaw.RawRefusals` | internal/rlp/raw.go:153-224 | which error the slice-based parser gives: too little input for the header, a header or a single byte not in its shortest form, too little input for the content |
| `RlpRaw.ShiftedIsBigEndian` | internal/rlp/raw.go:198-216 | each of the eight cases assembles the big-endian number |
| `RlpRaw.SplitStringExact` | internal/rlp/raw.go:90-99 | a string is split off exactly if its encoding is ahead |
| `RlpRaw.SplitListExact` | internal/rlp/raw.go:129-138 | a list is split off exactly if its header and as much content as it says are ahead |
| `RlpRaw.SplitUint64Exact` | internal/rlp/raw.go:103-125 | an integer is split off exactly if its encoding is ahead |
| `RlpRaw.CountValues` | internal/rlp/raw.go:141-151 | gives n exactly for the concatenations of n values |
| `RlpRaw.SameWhole` | internal/rlp/raw.go:141-151 | a byte string is a concatenation of values in at most one way |
| `RlpRaw.BytesSize` | internal/rlp/raw.go:32-61 | the length of the encoding of the string |
| `RlpRaw.ListSize` | internal/rlp/raw.go:65-67 | header and content added as uint64 |
| `RlpRaw.EncodedIntSize` | internal/rlp/raw.go:71-76 | the length of the encoding of the integer |
| `RlpRaw.AppendUint64Encodes` | internal/rlp/raw.go:226-294 | what is appended is the encoding of the integer |
| `RlpRaw.AppendThenSplit` | internal/rlp/raw.go:103-294 | an appended integer is split off again, whatever follows |
| `RlpRaw.ListIterator.Next` | internal/rlp/iterator.go:41-50 | gives the next value and leaves the rest; on a malformed one it reports the error and stays |
| `RlpRaw.NewListIterator` | internal/rlp/iterator.go:26-38 | accepts exactly an input that starts with a complete list, and holds its content |
| `RlpRaw.IterateList` | internal/rlp/iterator.go:26-59 | on the encoding of a list, the values given are the encodings of its elements, in order |
| `RlpFields.ParseTag` | internal/rlp/internal/rlpstruct/rlpstruct.go:147-191 | accepted exactly if there is no unknown tag, nil tags stand on pointers, and tail stands without optional on a slice that is the last exported field; what is recorded is which tags there are |
| `RlpFields.LastNilCounts` | internal/rlp/internal/rlpstruct/rlpstruct.go:159-172 | the recorded kind of nil value is the one that the last nil tag asks for, by its name or by the type of the field |
| `RlpFields.LastPublicField` | internal/rlp/internal/rlpstruct/rlpstruct.go:193-201 | the index of the field behind which no field is exported and which is exported, or 0 if no field is |
| `RlpFields.CheckOptional` | internal/rlp/internal/rlpstruct/rlpstruct.go:126-143 | finds whether every field behind one that may be missing may be missing |
| `RlpFields.ProcessFields` | internal/rlp/internal/rlpstruct/rlpstruct.go:104-145 | accepted exactly if the tags of all exported fields are allowed, where tail only stands on the last exported field, whatever unexported ones follow, and every encoded field behind one that may be missing may be missing |
| `RlpFields.AcceptedMeaning` | internal/rlp/internal/rlpstruct/rlpstruct.go:104-145 | acceptance, which ProcessFields decides field by field with the index of the last exported one, said of all fields at once |
| `RlpFields.IncludedAre` | internal/rlp/internal/rlpstruct/rlpstruct.go:104-145 | the fields to encode are exactly the exported ones that are not ignored, in order, with what their tags say |
| `RlpFields.AcceptedConsistent` | internal/rlp/internal/rlpstruct/rlpstruct.go:104-145 | of accepted fields, only the last is tagged tail, none is both tail and optional, and optional fields are followed by such |
| `RlpSchema.ZeroIsZero` | internal/rlp/encode.go:367-376 | the zero value that the decoder sets is the one value of the type that the zero test of the writer accepts: 0, false, bytes all 0, nil slices, and arrays and structs of such, unencoded fields included |
| `RlpSchema.Kept` | internal/rlp/encode.go:367-386 | fields dropped by the writer are zero and at or behind the first optional field, and the last kept one behind that is not zero; the zero test looks at the value alone and of a nested struct also sees the fields that are not encoded |
| `RlpSchema.OptionalOnwards` | internal/rlp/internal/rlpstruct/rlpstruct.go:121-143 | from the first optional field on, every field may be missing |
| `RlpMeaning.Meaning` | internal/rlp/decode.go:190-402 | what a tree stands for, type by type: the shortest form of a number that fits, 0 or 1, any string, a string of the length of the array, a list of as many elements as there have to be |
| `RlpMeaning.FieldsMeaning` | internal/rlp/decode.go:404-443 | fields are read one item each; where the items end, the field must be optional and it and all behind it become zero; a slice tagged tail at the end takes all items behind those of the other fields |
| `RlpMeaning.FieldsWritten` | internal/rlp/encode.go:342-388 | the kept fields are written as one item each, but a slice tagged tail at the end as its elements |
| `RlpSchema.RoundTrip` | internal/rlp/encode.go:342-388 | decoding what was written gives the value, nil and empty slices taken as the same, exactly if no struct in it drops just a byte slice tagged tail; otherwise decoding fails |
| `RlpMeaning.SameMeaning` | internal/rlp/encode.go:302-341 | two values are taken for the same exactly if they differ only in nil slices against empty ones and in fields that are not encoded |
| `RlpMeaning.Reencode` | internal/rlp/encode.go:342-388 | a tree that is read into a type gives a value of the type, and writing that gives the tree again exactly if no struct in it ends with the zero value of a field that may be missing |
| `RlpTagged.ByteTailLost` | internal/rlp/internal/rlpstruct/rlpstruct.go:104-145 | ProcessFields accepts an optional integer followed by a byte slice tagged tail; with the integer set and the byte slice nil, what is written cannot be read back |
| `RlpTagged.HiddenTailLost` | internal/rlp/encode.go:367-386 | the same for an optional nested struct that is not zero only because of an unexported field: C2 C1 80 is written, and cannot be read back |
| `RlpStruct.WriteValue` | internal/rlp/encode.go:138-175 | adds the encoding of the value's tree to the innermost open list |
| `RlpStruct.WriteByteArray` | internal/rlp/encode.go:235-272 | adds the encoding of a byte array, also for the lengths 0 and 1 |
| `RlpStruct.WriteSlice` | internal/rlp/encode.go:302-339 | adds a list of the elements |
| `RlpStruct.WriteStruct` | internal/rlp/encode.go:342-388 | adds a list of the fields that are kept |
| `RlpStruct.DecodeUint` | internal/rlp/decode.go:199-207 | succeeds exactly if the encoding of an integer of the type is in front, its header read before or not, within the list around it and the input limit, and consumes it |
| `RlpStruct.DecodeBool` | internal/rlp/decode.go:209-216 | succeeds exactly if the encoding of 0 or 1 is in front within these limits |
| `RlpStruct.DecodeByteArray` | internal/rlp/decode.go:369-402 | succeeds exactly if the encoding of a string of the array's length is in front within these limits, its header read before or not |
| `RlpStruct.DecodeElems` | internal/rlp/decode.go:312-339 | succeeds exactly if the rest of the list is values of the type, and reads them to its end |
| `RlpStruct.DecodeArrayElems` | internal/rlp/decode.go:341-358 | reads exactly as many values as the array has |
| `RlpStruct.DecodeFields` | internal/rlp/decode.go:414-434 | reads the fields; at the end of the list, the rest is zero from an optional field on; a tail slice takes what is left, and is never nil then |
| `RlpStruct.DecodeValue` | internal/rlp/decode.go:156-188 | succeeds exactly if a tree that stands for a value of the type is in front, its header read before or not, and passes the checks that DecodeInterface makes, and returns that value |
| `RlpStruct.DecodeTyped` | internal/rlp/decode.go:90-106 | succeeds exactly if the input is the encoding of a tree that stands for a value of the type |
| `RlpStruct.RestoreTyped` | internal/rlp/encode.go:75-86 | encoding a value and decoding it into its type gives it back, nil and empty slices taken as the same, exactly if no struct in it drops just a byte slice tagged tail |
| `RlpTagged.RestoreStruct` | internal/rlp/typecache.go:125-158 | a struct has a writer and a decoder exactly if its tags are consistent; then what was written is read as the same fields, whatever its unexported and ignored fields hold, exactly if no struct in it drops just a byte slice tagged tail |
| `Logger.StepKeepsInv` | logger.go:60-116 | every step of a print call, the writing goroutine or Wait keeps the accounting |
| `Logger.CounterKept` | logger.go:322-356 | the counter of each logger stays the number of its messages queued, in hand, or between Add and send or drop |
| `Logger.CounterInEveryRun` | logger.go:322-356 | in every interleaving the counter is exact, and Done never takes it below 0 |
| `Logger.ZeroMeansHandled` | logger.go:229-244 | when the counter is 0, every message sent for the logger has been handled |
| `Logger.WaitInEveryRun` | logger.go:229-244 | the caller that set waitStarted returns only when every message sent for its logger by then is handled, and at most one caller per logger waits |
| `Logger.MarkIsStart` | logger.go:229-244 | the point in time that counts for a waiter is when it set waitStarted |
| `Logger.LinesInOrder` | logger.go:80-114 | a logger's lines are its messages in order, without the ones skipped while its file could not be opened, which all came first |
| `Logger.SkippedInRun` | logger.go:78-90 | in a run, exactly as many messages of a logger are skipped as there are failures to open its file |
| `Logger.OutputInEveryRun` | logger.go:60-116 | in every interleaving and at every moment, each logger's lines are the messages sent for it, in that order, up to those queued or in hand, without as many at the start as there were failures to open its file |
| `Logger.SendOrDrop` | logger.go:342-356 | in every interleaving, a print call past Add hands its message over exactly if fewer than 10000 are waiting, and gives it up exactly if 10000 are; it never blocks |
| `Logger.EveryMessageAccounted` | logger.go:322-356 | in every interleaving, every message that passed the check was sent, is still in its print call, or was given up because the channel was full |
| `Logger.FullWhenFull` | logger.go:342-356 | whenever a message is given up, 10000 are waiting, and more than 10000 have passed the check |
| `Logger.NothingDropped` | logger.go:322-356 | with at most 10000 messages in a run, none is given up, and every one that passed the check is sent or still in its print call |
| `Logger.NoCheckWhileWaiting` | logger.go:229-244 | between the moment a caller of Wait sets waitStarted and the moment it clears it, no print call of that logger passes the check |
| `Logger.ComesIn` | logger.go:229-326 | a print call passes the check, and a caller of Wait sets waitStarted, exactly if no caller of Wait is waiting for that logger |
| `Logger.GoroutineNext` | logger.go:60-116 | the goroutine always has a next step unless no message waits; opening can only fail while the file is not open |
| `Logger.CanFinish` | logger.go:60-116 | from every reachable state, the goroutine and the print calls under way can finish without anything new coming |
| `Logger.WaitCanReturn` | logger.go:229-244 | from every reachable state, a caller of Wait can return without anything new coming, so no deadlock is built in |

## Left out

- Curve formulas: addition and doubling in Jacobian coordinates, the point at infinity and associativity. Points are coefficient vectors, so cases that depend on coordinates, such as doubling inside an addition, do not show.
- Projective rescaling in blinding, and the shared denominator of the tables: they do not change the point.
- Field and scalar inversion, square roots, and signing, verification and recovery, which rest on the primality of p and n.
- The 10x26 field, the 8x32 scalar, assembly, GMP and the exhaustive-test build, which repeat the modelled code for other targets.
- Constant-time behaviour and clearing of memory: masks and conditional moves are modelled by what they compute. A bitwise or of parts without common bits is a sum.
- EcmultGen.EcmultGenContext.Blind: the random bytes, and the loops that draw them again until they are a usable scalar, are a parameter.
- The SHA-256 block transform: it is a parameter of the hash object. HMAC and RFC 6979 are not part of this model.
- Der.SigParse: the two results are separate scalars; passing the same one twice is not modelled.
- Reflection, the type cache and the pools of RLP: a closed set of types stands in their place (unsigned integers, booleans, byte slices, byte arrays, slices, arrays, structs). Strings are written and read as byte slices are.
- Stream.ReadBytes, MoreDataInList, BigInt and ReadUint256, and writing big integers: they repeat what Bytes, Uint and the integer writer do for other types.
- Pointers and their nil tags, big integers, raw values, interfaces as fields, types that refer to themselves, and types with their own encoding methods.
- RlpFields.ProcessFields: tags come already split and trimmed, and an error does not carry its text.
- RlpDecode.DecodeInterface: for a value that is malformed behind its header, it is stated that the error is none of EOL, EOF and trailing bytes, not which other one it is.
- RlpStream.Stream.Bytes: on an unlimited stream, a string header with a size that cannot be allocated, such as one of 2^63 or more, makes the source panic (`internal/rlp/decode.go:642`); the model returns an error.
- RlpStream.Stream.Raw: the same (`internal/rlp/decode.go:700-701`), also for the header of a list.
- RlpStream.Stream.ReadFull: the reader delivers what it has; its own errors and its cutting into chunks are not modelled.
- RlpEncode.EncBuffer.CopyTo: buffers with an unfinished list are not covered, as lists are closed before output is made.
- RlpEncode.EncBuffer.ListEnd: lists are closed innermost first, by the index that opened them.
- RlpRaw.ListIterator.Next: a walk over a malformed list need not end; the walk as a whole is stated for well-formed lists.
- The logger's files, rotation, encryption, formatting, standard output and eviction. A message is what its line is made from.
- Logger.WaitInEveryRun: a second concurrent call of Wait returns at once and is promised nothing; a print call may pass its check of waitStarted and add to the counter later, which the interleavings include.
