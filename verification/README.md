# NTFW: the Ed25519 stack and the firewall engine's shared state, verified

This project models two cores of the repository in Dafny 4.11 and proves what they are for.

**The Ed25519 stack** (`ntfe/ed25519`). Field elements are ten signed limbs of type `int32`, scalars signed limbs of
type `int64`; both types carry the proof that no operation leaves them, so a method that verifies has no signed
overflow. On them stand the field operations with the limb bounds their comments state, exact reduction modulo l, the
two signed-digit recodings, the point formulas, both scalar multiplications, point encoding and decoding, the
streaming SHA-512, key generation, signing, verification, and the Montgomery ladder of the key exchange. Everything
meets in two theorems. `Ed25519.SignThenVerify`: for every seed and message, what signing makes under a generated key
pair, verification accepts. `KeyExchange.ExchangeBothWays`: for every two seeds, the parties with the generated key pairs
get the same secret. Each layer is proved against a reference of its own: numbers modulo p and l, digit strings, the
affine addition law of section 5.1.4 of RFC 8032, FIPS 180-4, sections 5.1.5 to 5.1.7 of RFC 8032, and section 5 of
RFC 7748.

**The firewall engine** (`ntfe`, `ntfw/phash.cpp`). The host table and its pool are machines of any number of cores in
which a step is one memory access and a read-modify-write that the code does not make atomic is two steps; the token
buckets and the rule table are classes that refine simple specifications; the search for a hash seed is a machine of
threads.

| file | what it holds |
|---|---|
| `Congruence`, `Bytes`, `Packing` | residues modulo p, bit operations on numbers, little-endian numbers and digits laid out as bytes |
| `Limbs`, `FieldArithmetic`, `FieldBytes`, `FieldPower`, `FieldSelect` | `fe.c` |
| `ScalarLimbs`, `ScalarReduction`, `Scalar` | `sc.c` |
| `Recoding`, `GroupElements`, `ScalarMult`, `PointEncoding`, `PointDecoding` | `ge.c` |
| `EdwardsCurve`, `PointMultiples` | the curve, its law and its multiples: the reference for `ge.c` |
| `Sha512Spec`, `Sha512Constants`, `Sha512Example`, `Sha512` | FIPS 180-4 with its constants from their definition and its example, and `sha512.c` against it |
| `Ed25519` | `keypair.c`, `sign.c`, `verify.c` |
| `Conformance` | where decoding and verification meet RFC 8032, and exactly how much laxer they are |
| `Montgomery` | the ladder on ratios x / z, and that it computes multiples of points of the Edwards curve |
| `KeyExchange` | `key_exchange.c` |
| `HostTable`, `HostCalls`, `HostHash`, `WholeTable`, `FullBucket`, `HostPool` | `host.cpp` and the spin lock of `helper.cpp` |
| `TokenBucket` | the token buckets of `ntfe.cpp` and the saturating arithmetic of `helper.cpp` |
| `RuleTable` | the rule table of `ntfe.cpp`, its hash in `ntfeusr.cpp`, the seed search of `phash.cpp` |

`dafny verify dfyconfig.toml` checks the whole project.

## What is taken for granted

Results about points have hypotheses, stated as predicates in their contracts:

- `Fermat`: z^(p-1) = 1 modulo p for every nonzero z (p is prime). From this the project proves that d is not a square
  and that the addition law is complete and closed.
- `Associative`: the addition law is associative on the curve.
- `Setting`: l times the base point is neutral, entry j of row i of `base` is (j + 1) 256^i B, and entry k of `Bi` is
  (2k + 1) B, all within the limb bounds of a product. The tables of `precomp_data.h` are not transcribed.

Nothing about the field, the scalars, the recodings, the hash or the engine depends on them. Decoding, the affine law and
the ladder's two formulas use the first; what needs multiples of points uses the second.

## Where the code and its comments or standards differ

The model follows the code.

- The proof in the comment of `fe_tobytes` starts from |h| <= p and |q| <= 1. Its own bounds let h reach 1.1 times 2^255,
  so q runs from -2 to 1 (`FieldBytes.QuotientEnds`); the chain still computes it exactly (`FieldBytes.QuotientExact`).
- Decoding accepts y from p to 2^255 - 1 and the encoding of x = 0 with the sign bit set, which section 5.1.3 of
  RFC 8032 rejects. `Conformance.StrictExactly` says when the code conforms, `Conformance.UnreducedDecoded` and
  `Conformance.SignedZeroDecoded` give inputs where it does not, and `DecodesNegated` says which point they give.
- Verification tests only the top three bits of S, not S < l as section 5.1.7 of RFC 8032 does. It accepts every valid
  signature, and what it accepts is valid exactly when S < l and the key is canonical (`Conformance.ValidExactly`);
  `Conformance.ShiftedAccepted` and `Conformance.SecondForm` say what passes besides.
- A message of 2^64 bits or more is hashed with its length modulo 2^64, which the comment in `sha512_final`
  assumes does not happen (`Sha512.PaddingStandardExactly`).
- The comment in `allocate` speaks of evicting entries up to the new entry's priority; both callers pass
  `HOST_PRI_NONE`, so only unauthorized entries are evicted, and `host_insert_authorized`, whose comment says it
  cannot fail, fails exactly when all eight entries are authorized (`HostTable.AllocateFailsExactly`,
  `FullBucket.AuthorizationFails`).
- `ThreadEntry` lowers the record width and stores its seed in two accesses, so with two threads or more it can report
  a seed that collides at the reported width (`RuleTable.RaceRun`). The load then fails and says so.
- The pool's growth protocol lets two cores grow the pool at once as soon as there are 34 cores
  (`HostPool.TwoGrowersRun`); with 33 or fewer no run does.

## Model

| member | source | states |
|---|---|---|
| `FieldArithmetic.Zero` | ntfe/ed25519/fe.c:35-46 | the value 0, within the limb bounds of a product |
| `FieldArithmetic.One` | ntfe/ed25519/fe.c:54-65 | the value 1, in a single limb |
| `FieldArithmetic.Add` | ntfe/ed25519/fe.c:69-123 | the exact sum of the two values; limb bounds add up, and no int32 overflows below the stated limits |
| `FieldArithmetic.Sub` | ntfe/ed25519/fe.c:1303-1357 | the exact difference of the two values, with the same bound rule |
| `FieldArithmetic.Neg` | ntfe/ed25519/fe.c:836-878 | the exact negative, with the same bounds |
| `FieldArithmetic.SchoolbookValue` | ntfe/ed25519/fe.c:691-700 | the ten sums of limb products, with 19 and 2 * 19 for what passes 2^255 and 2 for odd times odd, are the product of the two values modulo p |
| `FieldArithmetic.MulLimb0` | ntfe/ed25519/fe.c:557-691 | the first of the ten sums, computed in int32 and int64 without overflow for limbs up to 1.65 * 2^26 and 1.65 * 2^25 |
| `FieldArithmetic.SquareLimb0` | ntfe/ed25519/fe.c:982-1127 | the sum with doubled cross terms is the same number as the multiplication of the element by itself would form |
| `FieldArithmetic.CarryProduct` | ntfe/ed25519/fe.c:712-764 | the carry chain keeps the value modulo p, ends within 1.01 * 2^25 and 1.01 * 2^24, and no int64 overflows |
| `FieldArithmetic.Mul` | ntfe/ed25519/fe.c:524-765 | the product modulo p for all limbs within 1.65 * 2^26 and 1.65 * 2^25, with limbs at most 1.01 * 2^25 and 1.01 * 2^24 and no overflow on the way |
| `FieldArithmetic.Square` | ntfe/ed25519/fe.c:967-1127 | the square modulo p under the same bounds, so it agrees with the product of the element by itself |
| `FieldArithmetic.SquareTwice` | ntfe/ed25519/fe.c:1130-1300 | twice the square modulo p under the same bounds; the doubled sums still fit int64 |
| `FieldArithmetic.Mul121666` | ntfe/ed25519/fe.c:768-833 | 121666 times the value modulo p, for limbs within 1.1 * 2^26 and 1.1 * 2^25 |
| `Bytes.Load3Value` | ntfe/ed25519/fe.c:8-16 | OR of shifted bytes is the little-endian number |
| `Bytes.Load4Value` | ntfe/ed25519/fe.c:18-27 | OR of shifted bytes is the little-endian number |
| `FieldBytes.LoadsPartition` | ntfe/ed25519/fe.c:297-310 | the ten loads cover the 32 bytes without gap or overlap |
| `FieldBytes.LoadedValue` | ntfe/ed25519/fe.c:297-360 | the loaded and shifted limbs have the value of the low 255 bits |
| `FieldBytes.FromBytes` | ntfe/ed25519/fe.c:292-360 | an element congruent to the encoded number with its top bit ignored, within 1.01 * 2^25 and 1.01 * 2^24 |
| `FieldBytes.QuotientFloor` | ntfe/ed25519/fe.c:1361-1413 | the quotient chain of floors is one floor of the whole value |
| `FieldBytes.QuotientExact` | ntfe/ed25519/fe.c:1361-1413 | for all limbs within 1.1 * 2^26 and 1.1 * 2^25 the quotient chain computes floor(h / p) exactly |
| `FieldBytes.QuotientEnds` | ntfe/ed25519/fe.c:1361-1370 | inside those bounds the quotient reaches -2 and 1 |
| `FieldBytes.CanonicalDigits` | ntfe/ed25519/fe.c:1386-1453 | adding 19 q, carrying down and dropping 2^255 q leaves the ten digits of the unique representative |
| `FieldBytes.Pack` | ntfe/ed25519/fe.c:1454-1491 | the ORs of shifted digits lay the digits out as little-endian bytes |
| `FieldBytes.ToBytes` | ntfe/ed25519/fe.c:1361-1491 | 32 bytes holding the unique representative in [0, p), for all limbs within the documented bounds; other bytes untouched |
| `FieldBytes.FromBytesToBytes` | ntfe/ed25519/fe.c:1386-1491 | packing what was unpacked gives the number back, and the same bytes when the top bit was clear, for every encoding below p |
| `FieldPower.SquareTimes` | ntfe/ed25519/fe.c:364-448 | a loop of n squarings doubles the exponent n times |
| `FieldPower.PowerOfOnes250` | ntfe/ed25519/fe.c:364-438 | the shared chain reaches the exponent 2^250 - 1 |
| `FieldPower.Invert` | ntfe/ed25519/fe.c:364-448 | z^(2^255 - 21) modulo p for every z, with every intermediate within the multiplication bounds |
| `FieldPower.Pow22523` | ntfe/ed25519/fe.c:881-964 | z^(2^252 - 3) modulo p for every z, with every intermediate within the multiplication bounds |
| `FieldSelect.Move` | ntfe/ed25519/fe.c:126-188 | the second element when the flag is 1, the first when it is 0, through the mask of exclusive ors |
| `FieldSelect.Swap` | ntfe/ed25519/fe.c:190-259 | the elements exchanged exactly when the flag is 1 |
| `ScalarLimbs.RoundCarry` | ntfe/ed25519/sc.c:120-122 | a rounding carry keeps the value and leaves the limb between -2^20 and 2^20 |
| `ScalarLimbs.FloorCarry` | ntfe/ed25519/sc.c:238-240 | a floor carry keeps the value and leaves the limb between 0 and 2^21 |
| `ScalarLimbs.FoldLimb` | ntfe/ed25519/sc.c:78-84 | folding limb i down with the six digits of 2^252 - l subtracts an exact multiple of l |
| `ScalarReduction.SmallValue` | ntfe/ed25519/sc.c:195-237 | after the rounding fold the value is below 2^252 in size |
| `ScalarReduction.FloorTop` | ntfe/ed25519/sc.c:238-280 | the floor carry out of the top is -1 exactly for a negative value, and folding it back adds l only then |
| `ScalarReduction.ReduceLast` | ntfe/ed25519/sc.c:231-313 | the last two folds end in canonical digits of a value in [0, l) |
| `ScalarReduction.Reduce` | ntfe/ed25519/sc.c:78-313 | twelve canonical limbs of the value modulo l, for every 24 limbs the callers produce, with no int64 overflow |
| `Scalar.LoadTwentyFour` | ntfe/ed25519/sc.c:36-59 | the 24 masked loads are the 21-bit digits of the 64 bytes |
| `Scalar.Pack` | ntfe/ed25519/sc.c:315-346 | twelve canonical limbs as 32 bytes of the same value |
| `Scalar.ScReduce` | ntfe/ed25519/sc.c:25-347 | the first 32 bytes become exactly the 64-byte number modulo l, fully reduced; the rest is unchanged |
| `Scalar.ConvolutionValue` | ntfe/ed25519/sc.c:447-470 | the 23 sums of limb products have the product of the two values |
| `Scalar.MulAddLimbs` | ntfe/ed25519/sc.c:362-470 | the sums of limb products plus the third operand have the value ab + c, with no int64 overflow |
| `Scalar.CarryAll` | ntfe/ed25519/sc.c:471-539 | the even and odd carry passes keep the value and bring the limbs into the range the reduction takes |
| `Scalar.ScMulAdd` | ntfe/ed25519/sc.c:350-809 | exactly (ab + c) mod l, fully reduced, for every a, b and c |
| `Recoding.ExpandBits` | ntfe/ed25519/ge.c:30-32 | the array holds the 256 bits of the scalar, and so its value |
| `Recoding.Ripple` | ntfe/ed25519/ge.c:44-51 | adding a bit back: the value grows by its weight, unless the ones run to the end and exactly 2^256 is lost |
| `Recoding.Absorb` | ntfe/ed25519/ge.c:35-57 | one window keeps the value and leaves an odd digit of size at most 15 followed by four zeros; falling off the end needs a value above 2^255 |
| `Recoding.Slide` | ntfe/ed25519/ge.c:25-58 | digits zero or odd and at most 15 in size, nonzero ones at least five apart; the value is kept for every scalar with bit 255 clear, and otherwise kept or short by exactly 2^256 |
| `Recoding.SlideDigits` | ntfe/ed25519/ge.c:34-58 | the same for any array of bits |
| `Recoding.Radix16` | ntfe/ed25519/ge.c:394-411 | 64 digits from -8 to 8 with the value of the scalar, for a[31] at most 127, with no signed char overflow |
| `Recoding.SplitNibbles` | ntfe/ed25519/ge.c:394-397 | the 64 nibbles have the value of the scalar |
| `EdwardsCurve.Constants` | ntfe/ed25519/ge.c:133-139 | 121666 d = -121665, and the square root of -1 squares to it |
| `EdwardsCurve.NoRootOfD` | ntfe/ed25519/ge.c:133-135 | d is not a square modulo p: 2 d is one and 2 is none |
| `EdwardsCurve.Complete` | ntfe/ed25519/ge.c:5-22 | no denominator of the addition law vanishes on the curve, because d is not a square |
| `EdwardsCurve.SumFractions` | ntfe/ed25519/ge.c:5-22 | the affine law of section 5.1.4 of RFC 8032: both coordinates times their denominators |
| `EdwardsCurve.SumUnique` | ntfe/ed25519/ge.c:5-22 | the fractions determine the sum |
| `EdwardsCurve.Closed` | ntfe/ed25519/ge.c:5-22 | the sum of two points of the curve is on the curve |
| `EdwardsCurve.Neutral` | ntfe/ed25519/ge.c:247-279 | (0, 1) is neutral |
| `EdwardsCurve.Inverse` | ntfe/ed25519/ge.c:437-455 | (-x, y) is the inverse |
| `PointMultiples.MultipleAdd` | ntfe/ed25519/ge.c:60-67 | (m + n) P = m P + n P for all integers m and n |
| `PointMultiples.MultipleTimes` | ntfe/ed25519/ge.c:60-67 | (m n) P = m (n P) for all integers m and n |
| `PointMultiples.MultipleNegative` | ntfe/ed25519/ge.c:60-67 | (-n) P is the negative of n P |
| `PointMultiples.MultipleModulo` | ntfe/ed25519/sign.c:29-30 | for a point of order dividing m only the multiplier modulo m matters |
| `GroupElements.AdditionFormula` | ntfe/ed25519/ge.c:9-22 | the four products of the unified formulas combine to the affine sum with nonzero denominators |
| `GroupElements.AdditionOfOrigin` | ntfe/ed25519/ge.c:9-22 | the formula at the neutral element twice: its requirements can be met |
| `GroupElements.AddCached` | ntfe/ed25519/ge.c:5-22 | the affine sum, with every multiplication within its bounds although the last addition takes an already doubled sum |
| `GroupElements.SubCached` | ntfe/ed25519/ge.c:437-455 | the affine sum with the negated point, under the same bounds |
| `GroupElements.AddPrecomp` | ntfe/ed25519/ge.c:184-200 | the affine sum with a table entry, under the same bounds |
| `GroupElements.SubPrecomp` | ntfe/ed25519/ge.c:203-220 | the affine sum with a negated table entry, under the same bounds |
| `GroupElements.DoublingFormula` | ntfe/ed25519/ge.c:259-271 | the doubling formula is the addition law on equal points, by the curve equation |
| `GroupElements.DoubleP2` | ntfe/ed25519/ge.c:255-271 | the affine double, with every squaring within its bounds |
| `GroupElements.DoubleP3` | ntfe/ed25519/ge.c:282-290 | the affine double from extended coordinates |
| `GroupElements.P3ToP2` | ntfe/ed25519/ge.c:310-318 | the same point |
| `GroupElements.P1P1ToP2` | ntfe/ed25519/ge.c:223-231 | the same point, with a nonzero Z |
| `GroupElements.P1P1ToP3` | ntfe/ed25519/ge.c:235-244 | the same point, with a nonzero Z and T = x y Z |
| `GroupElements.ExtendedInvariant` | ntfe/ed25519/ge.c:239-244 | X Y = Z T in extended coordinates |
| `GroupElements.P3ToCached` | ntfe/ed25519/ge.c:294-307 | Y + X, Y - X, Z and 2 d T of the same point, with the limb constant equal to 2 d |
| `GroupElements.ZeroP2` | ntfe/ed25519/ge.c:247-251 | the neutral element |
| `GroupElements.ZeroP3` | ntfe/ed25519/ge.c:274-279 | the neutral element |
| `ScalarMult.OddTable` | ntfe/ed25519/ge.c:77-100 | the eight entries are A, 3A, 5A, ..., 15A |
| `ScalarMult.AddOddMultiple` | ntfe/ed25519/ge.c:112-118 | adds d A for a window digit d of either sign, and nothing for 0 |
| `ScalarMult.AddOddPrecomp` | ntfe/ed25519/ge.c:120-126 | adds d B for a window digit d of either sign, and nothing for 0 |
| `ScalarMult.HornerStep` | ntfe/ed25519/ge.c:109-129 | doubling and adding both digits is one Horner step of both digit strings |
| `ScalarMult.SkipZeros` | ntfe/ed25519/ge.c:103-107 | everything above the starting position is zero in both strings |
| `ScalarMult.Step` | ntfe/ed25519/ge.c:109-129 | one loop body: x A + y B becomes (d + 2x) A + (e + 2y) B |
| `ScalarMult.DoubleScalarMult` | ntfe/ed25519/ge.c:60-130 | a A + b B for all a and b below 2^255 |
| `ScalarMult.Equal` | ntfe/ed25519/ge.c:333-341 | 1 exactly when the bytes are equal |
| `ScalarMult.IsNegative` | ntfe/ed25519/ge.c:343-347 | 1 exactly for a negative digit |
| `ScalarMult.Magnitude` | ntfe/ed25519/ge.c:358-359 | the absolute value of the digit |
| `ScalarMult.MovePrecomp` | ntfe/ed25519/ge.c:349-353 | the second entry exactly when the flag is 1 |
| `ScalarMult.SelectMagnitude` | ntfe/ed25519/ge.c:360-370 | the neutral element overwritten by the one entry whose number matches: m times the row's point |
| `ScalarMult.Select` | ntfe/ed25519/ge.c:356-375 | b times the row's point for every digit from -8 to 8: |b| picked, negated exactly when b < 0 |
| `ScalarMult.StridedValue` | ntfe/ed25519/ge.c:414-433 | 16 times the odd-position sum plus the even-position sum is the value of the digits |
| `ScalarMult.TimesSixteen` | ntfe/ed25519/ge.c:420-427 | sixteen times the point |
| `ScalarMult.Pass` | ntfe/ed25519/ge.c:414-433 | one pass adds the digits of one parity, each weighted by its power of 256 |
| `ScalarMult.ScalarMultBase` | ntfe/ed25519/ge.c:377-434 | a B for every a with a[31] at most 127 |
| `PointEncoding.IsNegative` | ntfe/ed25519/fe.c:451-466 | the low bit of the unique representative |
| `PointEncoding.IsNonzero` | ntfe/ed25519/fe.c:469-520 | whether the value is nonzero modulo p |
| `PointEncoding.P3ToBytes` | ntfe/ed25519/ge.c:321-330 | the encoding of section 5.1.2 of RFC 8032: y in 255 bits and the low bit of x on top |
| `PointEncoding.P2ToBytes` | ntfe/ed25519/ge.c:458-467 | the same encoding from projective coordinates |
| `PointEncoding.EncodesUnique` | ntfe/ed25519/ge.c:321-330 | a point has one encoding |
| `PointDecoding.CandidateSquare` | ntfe/ed25519/ge.c:153-163 | v x^2 = u (u v^7)^((p-1)/4) for the candidate x |
| `PointDecoding.CandidateWorks` | ntfe/ed25519/ge.c:153-173 | when u / v is a square, the candidate's square times v is u or -u |
| `PointDecoding.CandidateRoot` | ntfe/ed25519/ge.c:153-160 | the candidate u v^3 (u v^7)^((p-5)/8), within the multiplication bounds |
| `PointDecoding.SolveForX` | ntfe/ed25519/ge.c:147-173 | 0 exactly when some x goes with y on the curve, and then such an x |
| `PointDecoding.FromBytesNegate` | ntfe/ed25519/ge.c:141-181 | 0 exactly when y belongs to a point of the curve, and then the point with the other sign of x; otherwise -1 |
| `PointDecoding.DecodeOfEncode` | ntfe/ed25519/ge.c:141-181 | decoding the encoding of a point gives its negative |
| `PointDecoding.EncodingInjective` | ntfe/ed25519/ge.c:321-330 | the 32 bytes determine the point |
| `Sha512Constants.ConstantsAreCubeRoots` | ntfe/ed25519/sha512.c:17-58 | the eighty round constants, in order, are the first 64 bits of the fractions of the cube roots of the first eighty primes (section 4.2.3 of FIPS 180-4) |
| `Sha512Constants.InitialIsSquareRoots` | ntfe/ed25519/sha512.c:147-165 | the eight words of the initial value are those of the square roots of the first eight primes (section 5.3.5) |
| `Sha512Example.DigestOfAbc` | ntfe/ed25519/sha512.c:91-139 | the reference hash of "abc" is the digest of the standard, through the schedule, all eighty rounds, the padding and the output bytes |
| `Sha512.MacroRotations` | ntfe/ed25519/sha512.c:61-85 | the four functions the macros build from shifts are the rotations of section 4.1.3 |
| `Sha512.MacroMeaning` | ntfe/ed25519/sha512.c:78-79 | the Ch and Maj of the macros are those of FIPS 180-4 |
| `Sha512.Load64` | ntfe/ed25519/sha512.c:71-75 | the big-endian word of eight bytes |
| `Sha512.Store64` | ntfe/ed25519/sha512.c:65-69 | eight big-endian bytes of a 64-bit number; other bytes untouched |
| `Sha512.RoundInPlace` | ntfe/ed25519/sha512.c:112-116 | one round of section 6.4.2 of FIPS 180-4, read with the registers rotated by one place |
| `Sha512.FillSchedule` | ntfe/ed25519/sha512.c:101-109 | the message schedule of section 6.4.2 |
| `Sha512.RunRounds` | ntfe/ed25519/sha512.c:118-127 | the unrolled loop with rotated registers is the eighty rounds of section 6.4.2 |
| `Sha512.Context.Init` | ntfe/ed25519/sha512.c:142-162 | the initial value of section 5.3.5 and an empty message |
| `Sha512.Context.CompressBlock` | ntfe/ed25519/sha512.c:90-139 | the compression function of section 6.4.2 |
| `Sha512.Context.Update` | ntfe/ed25519/sha512.c:164-210 | the data is appended to the message, in any chunks, and the context stays consistent |
| `Sha512.PadOneBlock` | ntfe/ed25519/sha512.c:233-256 | with fewer than 112 bytes left the single final block completes the padding of section 5.1.2 |
| `Sha512.PadTwoBlocks` | ntfe/ed25519/sha512.c:233-256 | with 112 bytes or more left the two final blocks complete the padding of section 5.1.2 |
| `Sha512.Context.Final` | ntfe/ed25519/sha512.c:212-265 | the FIPS 180-4 hash of everything appended, for messages under 2^64 bits; always the digest with the length modulo 2^64 |
| `Sha512.PaddingStandardExactly` | ntfe/ed25519/sha512.c:147-265 | the padded message is the standard's if and only if it has fewer than 2^64 bits, for every message up to the standard's limit |
| `Sha512.Hash` | ntfe/ed25519/sha512.c:267-275 | the FIPS 180-4 hash of the message |
| `Ed25519.ClampedScalar` | ntfe/ed25519/keypair.c:10-12 | a multiple of 8 from 2^254 to below 2^255 |
| `Ed25519.ClampKeeps` | ntfe/ed25519/keypair.c:10-12 | clamping keeps bits 3 to 253 of the scalar, sets bit 254, clears the rest, and leaves the other bytes alone |
| `Ed25519.HashAndClamp` | ntfe/ed25519/keypair.c:9-12 | the hash of the seed with the scalar half clamped |
| `Ed25519.CreateKeypair` | ntfe/ed25519/keypair.c:6-15 | the clamped hash of the seed, and the encoding of the scalar's multiple of the base point |
| `Ed25519.Sign` | ntfe/ed25519/sign.c:7-31 | section 5.1.6 of RFC 8032: an encoding of r B, then (h a + r) mod l, for the stated hashes r and h |
| `Ed25519.ConsttimeEqual` | ntfe/ed25519/verify.c:6-45 | true exactly when all 32 bytes agree |
| `Ed25519.TopBits` | ntfe/ed25519/verify.c:54-56 | the test of the top three bits |
| `Ed25519.Verify` | ntfe/ed25519/verify.c:47-77 | 1 exactly when the top bits of S are clear, the key decodes, and the first half encodes h (-A) + S B |
| `Ed25519.SignatureAccepted` | ntfe/ed25519/verify.c:47-77 | what signing promises under a key pair is what verification demands (sections 5.1.6 and 5.1.7 of RFC 8032) |
| `Ed25519.SignThenVerify` | ntfe/ed25519/verify.c:47-77 | every signature under a generated key pair is accepted, for every seed and message |
| `Conformance.StrictExactly` | ntfe/ed25519/ge.c:141-181 | for every 32 bytes: they encode a point of the curve (section 5.1.3 of RFC 8032) if and only if the code decodes them, y is below p, and not both y = 1 or -1 and the sign bit set |
| `Conformance.UnreducedDecoded` | ntfe/ed25519/ge.c:145 | the 32 bytes of p are decoded though they encode no point |
| `Conformance.SignedZeroDecoded` | ntfe/ed25519/ge.c:175-177 | y = 1 with the sign bit set is decoded though it encodes no point |
| `Conformance.KeyThenSign` | ntfe/ed25519/sign.c:7-31 | for every seed and message, the public key is that of section 5.1.5 of RFC 8032 and the signature that of section 5.1.6: the scalar and the prefix taken from the hashed seed, r and k hashed over the concatenations of the standard |
| `Conformance.BasePoint` | ntfe/ed25519/keypair.c:14-15 | the base point of the standard, y = 4 / 5 with x even, is on the curve and has the bytes 0x58, 0x66, ..., 0x66 |
| `Conformance.Moduli` | ntfe/ed25519/sc.c:25-33 | p is 2^255 - 19 and l is 2^252 + 27742317777372353535851937790883648493 |
| `Conformance.ValidExactly` | ntfe/ed25519/verify.c:47-77 | for every signature, message and key: valid by section 5.1.7 of RFC 8032, with the equation not multiplied by 8, if and only if the code accepts, S is below l, and the key is canonical |
| `Conformance.TopThreeBits` | ntfe/ed25519/verify.c:54-56 | the range the code tests is S below 2^253 |
| `Conformance.ShiftedAccepted` | ntfe/ed25519/verify.c:54-77 | with a multiple of l added to S, an accepted signature is accepted if and only if the new S is below 2^253 |
| `Conformance.SecondForm` | ntfe/ed25519/verify.c:54-77 | a made signature with S below 2^253 - l has a second form, S + l, that the code accepts and that is not valid |
| `Montgomery.LadderMultiples` | ntfe/ed25519/key_exchange.c:43-71 | for any relation under which the two formulas double and add differentially, the ladder holds the multiples by n and n + 1 |
| `Montgomery.AddSymmetric` | ntfe/ed25519/key_exchange.c:52-70 | the differential sum does not depend on the order of its operands |
| `Montgomery.DoubleRepresents` | ntfe/ed25519/key_exchange.c:59-70 | the doubling formula on x / z = (1 + y) / (1 - y) is doubling on the Edwards curve, also for the neutral element and for y = 0 |
| `Montgomery.CrossRatio` | ntfe/ed25519/key_exchange.c:57-69 | the identity behind the differential addition: (y1 + y2)^2 (1 - s) (1 - t) = (y1 - y2)^2 (1 + s) (1 + t) for the y coordinates s of the sum and t of the difference |
| `Montgomery.AddRepresents` | ntfe/ed25519/key_exchange.c:57-69 | the differential addition formula is addition on the Edwards curve, given the coordinate of the difference |
| `Montgomery.CurveLaws` | ntfe/ed25519/key_exchange.c:52-70 | so the two formulas meet what the ladder needs, for the multiples of every point that is not of order one or two |
| `Montgomery.FlatLadder` | ntfe/ed25519/key_exchange.c:38-71 | for a point of order one or two, whose coordinate is 0, the ladder ends with z = 0 |
| `Montgomery.LadderIsMultiple` | ntfe/ed25519/key_exchange.c:38-78 | from the coordinate of any point P of the curve the ladder computes the coordinate of n P, for every n |
| `KeyExchange.LadderStep` | ntfe/ed25519/key_exchange.c:52-70 | the double and the differential sum of section 5 of RFC 7748, with every operation within its bounds |
| `KeyExchange.LadderBit` | ntfe/ed25519/key_exchange.c:44-71 | one bit: up to the pending swap the pair for n becomes the pair for 2n + b |
| `KeyExchange.Ladder` | ntfe/ed25519/key_exchange.c:38-74 | after all 255 bits and the last swap, the multiple by the whole scalar |
| `KeyExchange.ToMontgomery` | ntfe/ed25519/key_exchange.c:29-36 | (y + 1) / (1 - y) |
| `KeyExchange.ClampKey` | ntfe/ed25519/key_exchange.c:20-27 | a clamped copy of the private scalar |
| `KeyExchange.Exchange` | ntfe/ed25519/key_exchange.c:4-79 | the canonical bytes of the ladder's x / z for the clamped scalar, for every 32-byte public key |
| `KeyExchange.SharedSecretIsMultiple` | ntfe/ed25519/key_exchange.c:29-78 | for a public key that stands for a point of the curve, the bytes are the Montgomery coordinate (section 5 of RFC 7748) of the clamped scalar's multiple of that point, whatever the point |
| `KeyExchange.ExchangeBothWays` | ntfe/ed25519/key_exchange.c:4-79 | two parties with generated key pairs get the same 32 bytes, for every two seeds |
| `HostTable.Probe` | ntfe/host.cpp:27-42 | the first entry with the key, or -1 exactly when there is none |
| `HostTable.Victim` | ntfe/host.cpp:140-157 | the first entry with the least priority and, among those, the greatest age modulo 2048 |
| `HostTable.CandidateOrder` | ntfe/host.cpp:135-157 | the candidate has the lowest priority, of those the greatest age modulo 2048, and is the first of equals |
| `HostTable.Distance` | ntfe/host.cpp:150 | the bit expression orders entries by priority, then by age difference modulo 2048, greatest first |
| `HostTable.FindCandidate` | ntfe/host.cpp:143-157 | the scan over packed control words finds that entry |
| `HostTable.HolderStep` | ntfe/host.cpp:170-288 | every step of the core that has the bucket keeps all that is claimed of the bucket, changes at most one field, and takes nothing from an authorized entry |
| `HostTable.Acquire` | ntfe/helper.cpp:81-97 | the successful test-and-set takes a free bucket |
| `HostTable.StepKeeps` | ntfe/host.cpp:170-288 | every step of any of any number of cores keeps the invariant, changes at most one field of one word, and takes nothing from an authorized entry |
| `HostTable.InitialInvariant` | ntfe/ntfe.h:193-194 | a zeroed bucket satisfies it |
| `HostTable.MutualExclusion` | ntfe/helper.cpp:81-125 | in every reachable state at most one core is between acquiring and releasing, and then the lock bit is set |
| `HostTable.AuthorizedStays` | ntfe/host.cpp:241-287 | an authorized entry keeps its key and at least its priority through any run |
| `HostTable.KeysDistinct` | ntfe/host.cpp:190-223 | in every reachable state no address is in two entries of a bucket, each hashes to the bucket, and an empty entry is unauthorized |
| `HostTable.LookupSeesAuthorized` | ntfe/host.cpp:106-124 | the unlocked two-step lookup finds an authorized address at no less than its priority, whatever runs before and between |
| `HostTable.EvictionTakesCandidate` | ntfe/host.cpp:140-167 | only an unauthorized entry of a full bucket is evicted, and it is the candidate |
| `HostTable.FailureMeansAuthorized` | ntfe/host.cpp:159-160 | in every reachable state, a core about to return a failure sees all eight entries authorized and none holding its address |
| `HostTable.AllocateFailsExactly` | ntfe/host.cpp:127-160 | in every reachable state, allocation gives up if and only if all eight entries are authorized |
| `HostTable.SuccessMeansPresent` | ntfe/host.cpp:225-229 | in every reachable state, a call that succeeds returns the entry of its address, authorized as asked |
| `HostTable.EntryComplete` | ntfe/host.cpp:217-221 | a new entry has its address, age, priority and pointer, and the borrowed top bit as it was |
| `HostTable.RaiseExact` | ntfe/host.cpp:252-253 | authorizing a known address changes its priority to what was asked and nothing else |
| `HostTable.ExhaustedMeansFull` | ntfe/host.cpp:132-138 | in every reachable state the exhausted flag is set exactly when all eight entries are occupied, except between setting it and writing the last key |
| `HostCalls.CallCompletes` | ntfe/host.cpp:170-288 | from every reachable state in which no core has the bucket, every call of host_insert or host_insert_authorized by an idle core completes when that core runs alone, and acts on the bucket as one step |
| `HostCalls.AtomicEffect` | ntfe/host.cpp:125-288 | what that step does: the address ends in an entry, a new one unauthorized or as asked with its second and pointer, a known one raised at most, and no other entry changes; or all eight entries are authorized and nothing changes |
| `HostCalls.GivesUpExactly` | ntfe/host.cpp:176-186 | a core leaves without having had the lock if and only if it inserts and sees the lock bit set |
| `HostHash.HashInjective` | ntfe/host.cpp:19-25 | different addresses have different hashes |
| `HostHash.HashOfOne` | ntfe/host.cpp:19-25 | the hash and the bucket of the address 1 |
| `WholeTable.StepSeen` | ntfe/host.cpp:92-95 | a step of a core is a step of its own bucket's machine and invisible to every other bucket |
| `WholeTable.TableStepKeeps` | ntfe/host.cpp:170-288 | every bucket of the table keeps its invariant |
| `WholeTable.AddressesUnique` | ntfe/host.cpp:88-95 | in every reachable state no address is in two entries of the whole table, and each is in its hash's bucket |
| `WholeTable.HoldersApart` | ntfe/helper.cpp:81-125 | in every reachable state two cores between lock and release are at different buckets |
| `WholeTable.AuthorizedForever` | ntfe/host.cpp:233-287 | an authorized address is never evicted, its entry does not move and its priority never drops, in any run of any cores over the whole table |
| `WholeTable.LookupSeesAuthorized` | ntfe/host.cpp:106-124 | an address authorized in any reachable table is found by the unlocked two-step lookup, at no less than its priority, whatever all cores do before and between |
| `FullBucket.SharedBucket` | ntfe/host.cpp:88-95 | nine different addresses whose hashes share a bucket |
| `FullBucket.AuthorizationFails` | ntfe/host.cpp:233-287 | a run, for any number of cores, in which eight addresses are authorized and the authorization of a ninth returns -1 |
| `HostPool.RoomLeft` | ntfe/host.cpp:61-82 | with at most 33 cores and one of them growing the pool, the next index is not the one that would start another growth |
| `HostPool.StepKeeps` | ntfe/host.cpp:46-85 | every step of at most 33 cores keeps the invariant |
| `HostPool.RunKeeps` | ntfe/host.cpp:46-85 | every run of at most 33 cores satisfies it |
| `HostPool.FreshIndex` | ntfe/host.cpp:55-85 | every index handed out is nonzero, new, and below the committed size |
| `HostPool.AllocationReturns` | ntfe/host.cpp:53-85 | an idle core that asks is given the next index, in some run from every state of at most 33 cores |
| `HostPool.SizeNeverLost` | ntfe/host.cpp:47-51 | the size grows by 64 with every finished growth, and only then |
| `HostPool.StallEnds` | ntfe/host.cpp:72-82 | a core stalled on an index has a grower that releases it under every schedule: after any steps of any cores among which the grower has three turns, the size is past the index and the next turn of the stalled core returns it |
| `HostPool.GrowthFinishes` | ntfe/host.cpp:47-82 | along any run, the grower has one step less with each of its turns while the stalled core keeps waiting for its index |
| `HostPool.TwoGrowersRun` | ntfe/host.cpp:66-70 | a run of 34 cores that has two of them growing the pool together |
| `HostPool.SafeExactly` | ntfe/host.cpp:63-65 | no run has two growers if and only if there are at most 33 cores |
| `TokenBucket.SatSub32` | ntfe/helper.cpp:56-62 | max(a - b, 0) |
| `TokenBucket.SatAdd32` | ntfe/helper.cpp:64-70 | min(a + b, 2^32 - 1) |
| `TokenBucket.SatMul32` | ntfe/helper.cpp:72-77 | min(a b, 2^32 - 1) |
| `TokenBucket.SaturationHarmless` | ntfe/ntfe.cpp:82-86 | the saturating refill equals the unbounded min(capacity, tokens + rate dt) |
| `TokenBucket.TokenBucket.Charge` | ntfe/ntfe.cpp:77-93 | the unbounded refill since the last charge, less the cost but not below zero; passed exactly when more than the level is left |
| `TokenBucket.ChargeLeaves` | ntfe/ntfe.cpp:79-92 | any charge, passed or refused, leaves max(min(capacity, tokens + rate dt) - cost, 0), or max(tokens - cost, 0) within the same millisecond, and passes exactly when that is above the level |
| `TokenBucket.SameInstantDrains` | ntfe/ntfe.cpp:89-90 | within one millisecond a run of charges takes the sum of all costs, whatever the verdicts, down to nothing |
| `TokenBucket.ExactBalance` | ntfe/ntfe.cpp:77-93 | over any run that neither overflows nor runs dry, final tokens plus all costs equal the initial tokens plus rate times the elapsed time |
| `TokenBucket.PassPaysInFull` | ntfe/ntfe.cpp:89-92 | a charge passes exactly when the refill exceeds cost plus level, and then exactly the cost is gone |
| `TokenBucket.Conservation` | ntfe/ntfe.cpp:77-93 | over any run, the accepted costs and the final tokens are at most the initial tokens plus rate times the elapsed time the code sees |
| `TokenBucket.WindowBound` | ntfe/ntfe.cpp:77-93 | no window accepts more than capacity plus rate times the window |
| `TokenBucket.CapacityHolds` | ntfe/ntfe.cpp:83-87 | the capacity holds once it holds, and after any refill |
| `TokenBucket.ElapsedIsTime` | ntfe/ntfe.cpp:79-80 | for times that do not go back, with gaps below 2^32 ms, the 32-bit differences add up to the time that passed |
| `TokenBucket.RefillSplits` | ntfe/ntfe.cpp:79-87 | cutting an idle period into several refills changes nothing, for every token count |
| `TokenBucket.IdleChargeChangesNothing` | ntfe/ntfe.cpp:77-93 | a charge of nothing on the way to a later charge changes neither its verdict nor its result, when the two gaps stay below 2^32 ms together |
| `TokenBucket.PacketLaw` | ntfe/ntfe.cpp:108-117 | a packet conforms exactly when each meter with a cost has more than the cost and its level after its refill; both are charged in any case, and no other |
| `TokenBucket.HostState.ChargePacket` | ntfe/ntfe.cpp:96-119 | both buckets charged in order unless their cost is zero, the byte cost never saturating; 0 exactly when both conform; the four meters of MAX_METERS |
| `RuleTable.SignatureLayout` | ntfe/ntfeusr.h:31-32 | a stored signature is the mark, seven bits of the ethertype, the protocol, and the port with its high byte first |
| `RuleTable.MatchExactly` | ntfe/ntfe.cpp:187-196 | a stored signature equals the one the receive path forms from the bytes of a frame if and only if the rule means the frame: ethertype code, protocol where there is one, port where there is one |
| `RuleTable.ArpSignature` | ntfe/ntfe.cpp:192-203 | an ARP rule is stored, and an ARP frame looked up, as 0x8c |
| `RuleTable.SlotIsMasked` | ntfe/ntfe.cpp:38-41 | masking the hash is taking it modulo the table size |
| `RuleTable.SignatureNonzero` | ntfe/ntfeusr.h:31-32 | a stored signature is never zero, because of its mark |
| `RuleTable.WiderIsFree` | ntfw/phash.cpp:98-130 | freedom from collisions survives any wider table |
| `RuleTable.Table.Insert` | ntfe/ntfe.cpp:52-74 | refused exactly when the slot is taken; otherwise exactly that slot is written, unless it is a test |
| `RuleTable.Table.Load` | ntfe/ntfe.cpp:494-509 | succeeds if and only if the list has no collisions at that seed and width, and then the table holds exactly the rules |
| `RuleTable.Table.Lookup` | ntfe/ntfe.cpp:44-49 | the entry of the signature's slot when its signature agrees |
| `RuleTable.LookupIsLinear` | ntfe/ntfe.cpp:44-49 | agrees with a linear search for every signature but exactly the zero one in an empty slot |
| `RuleTable.Table.LoadThenLookup` | ntfe/ntfe.cpp:184-290 | after a load, looking up any receive-path signature finds what a linear search of the list would |
| `RuleTable.Table.LoadThenReceive` | ntfe/ntfe.cpp:184-282 | after a load, the receive path finds a rule for a frame if and only if the list has one that means it, and with that rule's charges |
| `RuleTable.TrySeed` | ntfw/phash.cpp:108-123 | the inner loop accepts exactly the seeds without collisions |
| `RuleTable.FoundSeedIsFree` | ntfw/phash.cpp:98-174 | with the exchange and the store of the seed acting as one step, what the search reports has no collisions, for any number of threads |
| `RuleTable.Table.constructor` | ntfe/ntfe.cpp:494 | an empty table of the full size |
| `RuleTable.SearchThenLoad` | ntfe/ntfe.cpp:501-509 | a reported seed and width always load |
| `RuleTable.RaceRun` | ntfw/phash.cpp:125-126 | two threads, two rules and an interleaving of the exchange and the store that reports a colliding seed |
| `RuleTable.RecordOnlyFalls` | ntfw/phash.cpp:125-126 | a step of any thread lowers the record by at most one bit, never raises it, and lowers it only for a seed without collisions |
| `RuleTable.LoneThreadStops` | ntfw/phash.cpp:105-126 | a lone thread lowers the record one bit at a time and never below the target |
| `RuleTable.SearchSafeExactly` | ntfw/phash.cpp:125-126 | the search as written is safe if and only if at most one thread searches |

## Left out

- ScalarMult.DoubleScalarMult: takes the table of odd multiples of the base point as a hypothesis, because the numbers of `precomp_data.h` are not transcribed.
- ScalarMult.ScalarMultBase: takes the table of 256 multiples of the base point as a hypothesis, for the same reason.
- Ed25519.SignThenVerify: rests on the primality of p, on associativity of the curve group and on the order of the base point, which are hypotheses.
- KeyExchange.SharedSecretIsMultiple: speaks of public keys whose y is on the curve; for the other y, which belong to the quadratic twist, `KeyExchange.Exchange` says what the bytes are in terms of the ladder only.
- HostTable.StepKeeps: the loads of the eight keys and of the eight control words during a scan are one step each; the core that scans holds the lock, so nobody writes between them.
- HostPool.RunKeeps: hp_size and hp_true_sz do not wrap; the pool's 32-bit counters are numbers here.
- TokenBucket.HostState.ChargePacket: meter indices are below 4, the length of the arrays they index; the rule's three-bit fields could hold 4 to 7, which would be outside them. The spin lock around the charges is not modelled again.
- RuleTable.Table.Load: hash widths are at most 7, what ntfe_validate_configuration lets through; widths of 0 are rejected there.
- Field elements, scalar limbs and point structures are values returned by methods: writing through output pointers that alias an input is not modelled. Byte buffers, digit arrays, hash contexts, buckets and rule tables are updated in place.
- The unrolled eight entries of the odd-multiple table, eight conditional moves of `select` and 32 comparisons of `consttime_equal` and `fe_isnonzero` are loops.
- NULL arguments of the hash, and its behaviour after an earlier failure.
- ed25519/seed.c (randomness), add_scalar and anything else that would need the operating system.
- The random generator of phash.cpp: the seeds it yields are arbitrary.
- host_clear_statically_authorized, which runs only while the driver is detached and can open a middle slot: runs here start from the zeroed table and do not contain it.
- Clearing the state of an evicted host, and reclaiming pool entries.
- The validation pass and the loading of meters and static hosts in ntfe_configure, the receive and transmit paths, NTFP messages, the transmit-path signature.
- Weak memory, prefetching, statistics counters, logging.
- Driver, user interface and platform layer (`ntfwkm`, `ntfw` dialogs, `eal.cpp`).
- Constant running time and any claim of cryptographic strength.
