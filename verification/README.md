# AsynCS: the arithmetic, the key release and the worker cache, verified

This Dafny project models the hard parts of AsynCS and proves what they are for. AsynCS runs
encrypted WebAssembly functions in SGX workers. A key management enclave (KMS) hands out
identity-based keys to attested workers; a worker decrypts function code, keeps it in a one-entry
cache and runs it on encrypted inputs. Underneath sit the pairing and field arithmetic of mcl and the
hash code of cybozulib, which the repository carries in `sgx_worker/lib/mcl/include`.

One module per component; `dafny verify dfyconfig.toml` checks all of them.

| file | module | what it covers |
|---|---|---|
| `Arith.dfy`, `Field.dfy`, `Wrappers.dfy` | `Arith`, `Field`, `Wrappers` | powers, congruence with named multipliers, arithmetic and division modulo a prime, missing results |
| `Groups.dfy` | `Groups` | abelian groups, multiples, polynomials with coefficients in a group, the residues as such a group |
| `DivSteps.dfy`, `InvMod.dfy` | `DivStepSpec`, `InvMod` | the safegcd modular inverse: 62 division steps per matrix, read from low words only |
| `BitReverse.dfy`, `Ntt.dfy` | `BitReverse`, `NttModel` | table-driven bit reversal, the in-place number-theoretic transform and its inverse over any group with scalars from a field |
| `BatchInverse.dfy`, `Lagrange.dfy` | `BatchInverse`, `Lagrange` | many inverses from one; polynomial evaluation and interpolation at zero over any such group |
| `ChordTangent.dfy`, `Curve.dfy` | `ChordTangent`, `Curve` | the chord-and-tangent sum as the reflected third intersection; affine and Jacobian addition, doubling, normalisation and curve tests against it |
| `ScalarMul.dfy` | `ScalarMul` | addition chains, windows, signed digits and interleaving against the integer multiple |
| `SmallMod.dfy` | `SmallMod` | reduction by an approximate quotient, the Montgomery coefficient |
| `Sha256.dfy` | `Sha2` | streaming SHA-256 against the definitions of FIPS 180-4, and HMAC |
| `Sha256Standard.dfy`, `Sha256Abc.dfy` | `Sha2Standard`, `Sha2Abc` | what the standards say of those definitions byte by byte; the known answer for "abc", round by round |
| `Paillier.dfy` | `Paillier` | decryption of ciphertexts and of sums of ciphertexts |
| `Ecdsa.dfy`, `Der.dfy` | `Ecdsa`, `Der` | signing and verification over any group of prime order; the DER form of signatures |
| `Kms.dfy` | `Kms` | the KMS as a state machine of ecalls, and what justifies a key release in any run |
| `Bytes.dfy`, `Wire.dfy`, `KeySet.dfy` | `ByteStrings`, `Wire`, `KeySets` | the release, private-key set and associated-data formats: encoders, readers, exactness |
| `Envelope.dfy` | `Envelopes` | the envelope that carries a key to an identity, and its three readers |
| `Formats.dfy` | `Formats` | the three formats position by position, and what each of seven readers accepts |
| `KeyRelease.dfy` | `KeyRelease` | the KMS building a release |
| `Worker.dfy` | `WorkerEnclave` | key loads, key envelopes, the function-code cache and invocations over whole runs |
| `Delivery.dfy` | `Delivery` | KMS, host, client and worker together: the keys sent are the keys imported, and a prepared request runs |
| `CodeCache.dfy` | `CodeCache` | which calls leave a cache entry alone, that an entry left alone is found, and what an invocation runs, in full |
| `LegacyPath.dfy` | `LegacyPath` | the older key path end to end: sealed key packets, a batch fetch, the client's key ciphertexts and the runs they lead to |
| `Base64.dfy` | `Base64` | the worker's encoder, the workload's encoder and decoder |
| `PaddedModule.dfy` | `PaddedModule` | exact-size padding of WebAssembly artifacts |

Conventions. The source's loops are Dafny loops and its mutable objects are classes; each method is
tied to a specification function or states its result outright, and the properties are lemmas about
the specification. Where the source reads a C string, the model has a byte string without the
terminator. Foreign cryptography is a record of uninterpreted functions, and only the laws a theorem
names are assumed of them. Hypotheses such as "p is prime", "w^(N/2) = -1" or "r^(n * lambda) = 1" are
preconditions of the results that need them.

Results worth knowing before reading the table:

- The outer loop of the modular inverse terminates for every odd modulus and every input, by a
  lexicographic measure on single division steps; no bound on the number of turns is assumed. The
  returned magnitude is the inverse if and only if the exit value is within reach of the two
  additions of `normalize`, and the canonical one if and only if it is closer still. Up to three
  turns never leave the reach.
- `Ntt::init` reports success for every power of two, but for more than 2^32 points the exponent it
  raises its root to is zero, so the derived root has the wrong order.
- `SmallModP::mod` copies its argument out unreduced when the approximate quotient is zero although
  the argument is not below the modulus; this is exactly when the result differs from `x mod p`.
- In the KMS a registration or binding under a name longer than its slot reports success but never
  takes effect under that name.
- The 256-byte buffer for associated data makes a BF-IBE key fetch fail for every fid of more than 54
  bytes, in the KMS already; for shorter ones the fetch succeeds whenever the gates and the foreign
  steps do.
- The padding search of the artifact builder succeeds exactly when the room to fill is 23, 26 or 27
  bytes, or at least 28 and not of the form 128^k + k + 1, where the size field jumps by one byte.
  Room for 24 or 25 bytes could be filled, but the search stops before it gets there.
- A set policy is bypassed by no call that hands out keys, not even for the test identity that is
  exempt from the key gate.
- The answer published for "abc" follows from the definitions of SHA-256, constants and all.
- On the older path the key of the fid becomes the worker's key and the key of the label its label key,
  and what a client prepared for the two runs. A packet whose first nine bytes read as a release, which
  the enclave's own public key may do, is taken for one by the host.
- Cached code is found again by every equivalent call, on either path and without a key ciphertext for
  the function, as long as exactly the calls named in `CodeCache.LeavesEntry` came in between. A fid
  of 128 characters empties the cache on the BF-IBE path however often it is loaded: the slot keeps 127.
- A worker that fetched the keys for a fid and a label runs exactly the code and input that a client
  prepared for them; an envelope made for one fid, nonce and client key opens for no other, and none
  opens both as a request key and as a function key.
- A scalar that has no signed-digit form of the fixed size stops the multiplication at an assertion;
  these are exactly the scalars for which no such form exists, since the form is unique.
- A failed key load can leave new key bytes behind in the worker; the fid, the loaded flags and the
  cache never change on failure.

## Model

| member | source | states |
|---|---|---|
| DivStepSpec.StepDescends | sgx_worker/lib/mcl/include/mcl/invmod.hpp:127-164 | a single division step on an odd f and a non-zero g goes strictly down in the order (max of absolute values, shape, budget, absolute value of g) and keeps f odd |
| DivStepSpec.BatchDescends | sgx_worker/lib/mcl/include/mcl/invmod.hpp:255-261 | any batch of steps ends at g = 0 or strictly lower, which is why the outer loop ends |
| DivStepSpec.BatchBounded | sgx_worker/lib/mcl/include/mcl/invmod.hpp:166-182 | steps never enlarge the pair, so its words keep fitting |
| DivStepSpec.EtaDrift | sgx_worker/lib/mcl/include/mcl/invmod.hpp:132-145 | eta moves by at most one a step, so it fits its machine word |
| DivStepSpec.HalvingSteps | sgx_worker/lib/mcl/include/mcl/invmod.hpp:133-139 | shifting out n zeros at once is n single steps |
| DivStepSpec.EliminationSteps | sgx_worker/lib/mcl/include/mcl/invmod.hpp:153-157 | clearing several low bits with one multiple of f is as many single steps |
| DivStepSpec.SwapThenSteps | sgx_worker/lib/mcl/include/mcl/invmod.hpp:141-152 | exchanging and negating first agrees with the single step for negative eta |
| InvMod.NegInverse16Clears | sgx_worker/lib/mcl/include/mcl/invmod.hpp:129 | the table entry for the low bits of f is a multiplier that clears the low bits of g |
| InvMod.Bsf | sgx_worker/lib/mcl/include/mcl/invmod.hpp:133 | the index of the lowest set bit |
| InvMod.DivstepsNMatrix | sgx_worker/lib/mcl/include/mcl/invmod.hpp:127-164 | for every pair that agrees with the given words on the low 62 bits: the matrix has determinant 2^62 and rows of absolute sum at most 2^62, sends the pair to 2^62 times the pair after 62 division steps, whose first half is odd; and eta is the one after 62 steps |
| InvMod.UpdateFG | sgx_worker/lib/mcl/include/mcl/invmod.hpp:166-182 | both shifts are exact: f and g become the pair the matrix promises |
| InvMod.Correction | sgx_worker/lib/mcl/include/mcl/invmod.hpp:189-220 | the correction word lies in half the range and makes the combination divisible by 2^62, whatever the sign terms |
| InvMod.UpdateDE | sgx_worker/lib/mcl/include/mcl/invmod.hpp:184-228 | d and e become the exact quotients by 2^62 of their combinations plus a small multiple of the modulus |
| InvMod.CombinedKeeps | sgx_worker/lib/mcl/include/mcl/invmod.hpp:199-227 | the congruences d x = f and e x = g survive a turn, and the size bound grows by half the modulus |
| InvMod.SpansKeeps | sgx_worker/lib/mcl/include/mcl/invmod.hpp:255-261 | modulus and input stay integer combinations of (f, g), so common divisors are kept |
| InvMod.TurnKeeps | sgx_worker/lib/mcl/include/mcl/invmod.hpp:255-261 | one turn keeps oddness, congruences, common divisors and the bound k M / 2 + 1 after k turns, and goes down |
| InvMod.Normalize | sgx_worker/lib/mcl/include/mcl/invmod.hpp:230-243 | the result is congruent to plus or minus the argument, is non-negative exactly within reach, and is canonical exactly in the stated interval |
| InvMod.Exec | sgx_worker/lib/mcl/include/mcl/invmod.hpp:245-264 | ends for every odd modulus and input; the result times the input is plus or minus the greatest common divisor modulo M; on exit d times the input is too, with the signed bound k M / 2 + 1 on d; for coprime inputs the result is the inverse, or the canonical inverse, exactly under the stated conditions on d |
| BitReverse.RevAppend | sgx_worker/lib/mcl/include/mcl/ntt.hpp:36-45 | reversal over a + b bits from the reversals of the two parts |
| BitReverse.RevInvolution | sgx_worker/lib/mcl/include/mcl/ntt.hpp:66-78 | reversing twice gives the number back |
| BitReverse.GenericRev | sgx_worker/lib/mcl/include/mcl/ntt.hpp:36-45 | the bit-at-a-time loop computes the reversal |
| BitReverse.Reverser.constructor | sgx_worker/lib/mcl/include/mcl/ntt.hpp:29-34 | the table holds the reversal of every byte |
| BitReverse.Reverser.Reverse | sgx_worker/lib/mcl/include/mcl/ntt.hpp:46-62 | the byte-at-a-time reversal equals the bit-at-a-time one for every width up to 64 |
| BitReverse.Reverser.RevArray | sgx_worker/lib/mcl/include/mcl/ntt.hpp:63-78 | swapping in place leaves element i where its reversed index says |
| NttModel.ValueParity | sgx_worker/lib/mcl/include/mcl/ntt.hpp:163-186 | a polynomial with coefficients in the group from its even and odd coefficients, the step behind one pass |
| NttModel.BlockIsValue | sgx_worker/lib/mcl/include/mcl/ntt.hpp:166-180 | after k passes each block of the bit-reversed array holds polynomial values at powers of w |
| NttModel.DftIsValue | sgx_worker/lib/mcl/include/mcl/ntt.hpp:159-162 | the defining sum is the polynomial value at w^i |
| NttModel.Transform.InitPowSeq | sgx_worker/lib/mcl/include/mcl/ntt.hpp:15-25 | the table holds the powers of its argument |
| NttModel.Transform.Init | sgx_worker/lib/mcl/include/mcl/ntt.hpp:134-155 | succeeds exactly for powers of two above one and with memory to be had, and fills the table with powers of the derived root; a refused length changes nothing, a failed allocation drops the table |
| NttModel.Transform.Butterflies | sgx_worker/lib/mcl/include/mcl/ntt.hpp:171-178 | the inner loop combines the two half blocks and leaves the rest alone |
| NttModel.Transform.Pass | sgx_worker/lib/mcl/include/mcl/ntt.hpp:168-179 | one pass joins all neighbouring pairs of transformed blocks |
| NttModel.Transform.Passes | sgx_worker/lib/mcl/include/mcl/ntt.hpp:163-180 | the three loops leave the block transform of the bit-reversed input |
| NttModel.Transform.Ntt | sgx_worker/lib/mcl/include/mcl/ntt.hpp:187-188 | for elements of any group with scalars from the field, xs[i] becomes the sum over j of w^(i j) xs[j] |
| NttModel.Transform.Intt | sgx_worker/lib/mcl/include/mcl/ntt.hpp:189-190 | for elements of any such group, xs[i] becomes the sum over j of w^(-i j) xs[j], times the inverse of the length |
| NttModel.GeoRoot | sgx_worker/lib/mcl/include/mcl/ntt.hpp:181-185 | powers of w^d over a full period sum to the length or to zero |
| NttModel.RoundTrip | sgx_worker/lib/mcl/include/mcl/ntt.hpp:187-190 | the inverse transform after the transform restores every array of elements of any such group |
| NttModel.RootOrder | sgx_worker/lib/mcl/include/mcl/ntt.hpp:149-152 | the root derived for 2^k points has the order needed if and only if k is at most 32 |
| NttModel.LongestRoot | sgx_worker/lib/mcl/include/mcl/ntt.hpp:149-152 | the root derived for 2^32 points is the given one |
| NttModel.RootHalved | sgx_worker/lib/mcl/include/mcl/ntt.hpp:149-152 | the root for half a length is the square of the root for the length |
| Groups.MultSum | sgx_worker/lib/mcl/include/mcl/lagrange.hpp:67-74 | multiples of a sum are sums of multiples, for negative scalars, too |
| Groups.ValueIsPowerSum | sgx_worker/lib/mcl/include/mcl/lagrange.hpp:96-99 | Horner evaluation is the sum of the multiples of the coefficients by the powers, in any abelian group |
| Groups.ResiduesAbelian | sgx_worker/lib/mcl/include/mcl/lagrange.hpp:16-17 | the residues modulo any number are an abelian group |
| Groups.ResiduesExponent | sgx_worker/lib/mcl/include/mcl/lagrange.hpp:16-17 | of that exponent, so field elements are a case of what is proved over groups |
| BatchInverse.TakeLast | sgx_worker/lib/mcl/include/mcl/operator.hpp:53-75 | from the inverse of a product and the product without its last factor: the inverse of that factor, and the inverse of the rest |
| BatchInverse.InvertAt | sgx_worker/lib/mcl/include/mcl/operator.hpp:57-76 | one step backwards, zero and one copied, also when input and output are the same array |
| BatchInverse.InvVecWork | sgx_worker/lib/mcl/include/mcl/operator.hpp:35-79 | one inversion for a whole chunk gives every element its own inverse, zero for zero, and counts the elements that are neither zero nor one |
| BatchInverse.InvVec | sgx_worker/lib/mcl/include/mcl/operator.hpp:81-101 | the same for any number of elements, chunk by chunk, in place or not |
| Lagrange.EvaluatePolynomial | sgx_worker/lib/mcl/include/mcl/lagrange.hpp:100-119 | fails exactly for no coefficients, else returns the value of the polynomial, coefficients in any abelian group |
| Lagrange.Product | sgx_worker/lib/mcl/include/mcl/lagrange.hpp:31-38 | the product of all points |
| Lagrange.Denominator | sgx_worker/lib/mcl/include/mcl/lagrange.hpp:49-61 | the denominator of one point, or failure exactly when another point equals it |
| Lagrange.WeightsSumToOne | sgx_worker/lib/mcl/include/mcl/lagrange.hpp:27-30 | the values at zero of the basis polynomials sum to one |
| Lagrange.WeightMoments | sgx_worker/lib/mcl/include/mcl/lagrange.hpp:27-30 | weighted with them, the j-th powers of the points sum to zero for every j from one up to the number of points, exclusive |
| Lagrange.Interpolates | sgx_worker/lib/mcl/include/mcl/lagrange.hpp:39-47 | weighted values of a polynomial with coefficients in the group, at most as many as points, give its constant coefficient |
| Lagrange.LagrangeInterpolation | sgx_worker/lib/mcl/include/mcl/lagrange.hpp:11-94 | for values in any group over the field: fails for no points and, for two or more, exactly when a point is zero or two coincide; else returns c[0] of every polynomial c that the values come from |
| ChordTangent.ThirdIntersection | sgx_worker/lib/mcl/include/mcl/ec.hpp:795-854 | a point of the line through s and t, or of the tangent, is on the curve exactly when its x is that of s, of t or of their sum |
| ChordTangent.SameX | sgx_worker/lib/mcl/include/mcl/ec.hpp:838-845 | two points of the curve with one x are equal or opposite, and opposite ones sum to infinity |
| ChordTangent.TwiceOnCurve | sgx_worker/lib/mcl/include/mcl/ec.hpp:795-824 | the tangent construction stays on the curve |
| ChordTangent.PlusOnCurve | sgx_worker/lib/mcl/include/mcl/ec.hpp:826-854 | sums of points of the curve are points of the curve |
| Curve.ChordScaled | sgx_worker/lib/mcl/include/mcl/ec.hpp:313-463 | the division-free line formula gives the chord point scaled by z^2 and z^3 |
| Curve.ZeroTests | sgx_worker/lib/mcl/include/mcl/ec.hpp:396-437 | the two zero tests decide equality of the affine coordinates |
| Curve.AddGeneric | sgx_worker/lib/mcl/include/mcl/ec.hpp:438-463 | the Jacobian addition formula for different x gives the chord point |
| Curve.DoubleRight | sgx_worker/lib/mcl/include/mcl/ec.hpp:313-381 | the Jacobian doubling formulas, in every branch on the coefficient a, give the tangent point or infinity |
| Curve.DblJacobi | sgx_worker/lib/mcl/include/mcl/ec.hpp:313-381 | in place, also when the result is the argument: the point read from the result is twice the point read from the argument, and on the curve if that was |
| Curve.AddJacobi | sgx_worker/lib/mcl/include/mcl/ec.hpp:388-463 | in place, also when the result is an argument: zero, equal, opposite, z = 1 and general cases all give the sum, which is on the curve if the arguments are |
| Curve.DblAffine | sgx_worker/lib/mcl/include/mcl/ec.hpp:795-824 | the affine formulas give twice the point, on the curve if the argument is |
| Curve.AddAffine | sgx_worker/lib/mcl/include/mcl/ec.hpp:826-854 | the affine formulas give the chord-and-tangent sum, on the curve if the arguments are, so both representations agree |
| Curve.NormalizedPoint | sgx_worker/lib/mcl/include/mcl/ec.hpp:112-121 | dividing by z leaves the point as it is |
| Curve.NormalizeSome | sgx_worker/lib/mcl/include/mcl/ec.hpp:157-171 | one chunk: a field inversion for all, then every point divided by its z |
| Curve.NormalizeVec | sgx_worker/lib/mcl/include/mcl/ec.hpp:148-177 | any number of points, in place or not: every one is normal afterwards and the same point |
| Curve.IsValidJacobi | sgx_worker/lib/mcl/include/mcl/ec.hpp:275-303 | the weighted equation holds exactly for points of the curve; with z = 0 it compares y^2 and x^3 |
| Curve.IsValidAffine | sgx_worker/lib/mcl/include/mcl/ec.hpp:780-793 | decides membership of normal points |
| Curve.IsValid | sgx_worker/lib/mcl/include/mcl/ec.hpp:1150-1162 | decides membership of every point; in affine mode points that are not normal are refused |
| Groups.MultAdd | sgx_worker/lib/mcl/include/mcl/ec.hpp:1653-1720 | multiples of one point add like their scalars, negative ones included |
| ScalarMul.MulSmallInt | sgx_worker/lib/mcl/include/mcl/ec.hpp:874-995 | succeeds exactly up to 16 and then is the signed multiple |
| ScalarMul.MulWord | sgx_worker/lib/mcl/include/mcl/ec.hpp:1667-1674 | sixteen windows of one word append the word to the multiple |
| ScalarMul.MulArrayCT | sgx_worker/lib/mcl/include/mcl/ec.hpp:1653-1679 | the window method is the signed multiple for scalars of any number of words |
| ScalarMul.NafUnique | sgx_worker/lib/mcl/include/mcl/gmp_util.hpp:616-620 | a number has one width-w form, up to zeros at the top |
| ScalarMul.NafOverflow | sgx_worker/lib/mcl/include/mcl/gmp_util.hpp:639-662 | with a digit still to come once the array is full, no form of the number fits the array |
| ScalarMul.GetNafWidth | sgx_worker/lib/mcl/include/mcl/gmp_util.hpp:621-670 | on success the digits are a width-w non-adjacent form of the number and fit; it succeeds if and only if some form fits, and always with one digit more than the number has bits |
| ScalarMul.AddTbl | sgx_worker/lib/mcl/include/mcl/ec.hpp:47-57 | adds the multiple for the digit, looked up among the odd multiples |
| ScalarMul.RealSize | sgx_worker/lib/mcl/include/mcl/ec.hpp:1690 | dropping leading zero words keeps the value |
| ScalarMul.ValueWord | sgx_worker/lib/mcl/include/mcl/ec.hpp:1653-1679 | word i of a scalar weighs 2^(64 i): replacing it changes the value by that much |
| ScalarMul.SumDigits | sgx_worker/lib/mcl/include/mcl/ec.hpp:1705-1719 | doubling and adding table entries from the top digit down is the multiple by the number behind the digits |
| ScalarMul.MulArray | sgx_worker/lib/mcl/include/mcl/ec.hpp:1680-1720 | every path, small scalars, signed digits or windows, is the signed multiple, for scalars of any size; no result exactly when signed digits are used and no form of the scalar fits |
| ScalarMul.CombinationBump | sgx_worker/lib/mcl/include/mcl/ec.hpp:1766-1770 | changing one coefficient changes the sum by that multiple |
| ScalarMul.Interleave | sgx_worker/lib/mcl/include/mcl/ec.hpp:1763-1771 | one doubling a digit position and one table entry a point give the sum of the multiples |
| ScalarMul.MulVecN | sgx_worker/lib/mcl/include/mcl/ec.hpp:1739-1773 | the sum of the multiples of the first min(n, 32) points; no result exactly when one of their scalars has no form that fits |
| SmallMod.ErrorBound | sgx_worker/lib/mcl/include/mcl/bint.hpp:551-556 | the truncated product of truncated operands misses the true quotient by less than two |
| SmallMod.ApproxRight | sgx_worker/lib/mcl/include/mcl/bint.hpp:551-571 | for an excess of at most 14 bits the 32-bit product does not overflow and the quotient is off by at most one |
| SmallMod.SmallModP.constructor | sgx_worker/lib/mcl/include/mcl/bint.hpp:528-550 | for every positive modulus the reciprocal is the floor of 2^(15 + l) / p and fits its field |
| SmallMod.SmallModP.QuotOf | sgx_worker/lib/mcl/include/mcl/bint.hpp:559-571 | refuses exactly inputs that are too long; otherwise floor(x / p) or one less |
| SmallMod.SmallModP.Mod | sgx_worker/lib/mcl/include/mcl/bint.hpp:573-599 | never borrows, returns a value congruent to x below 2p, and x mod p exactly when the approximate quotient is at least one or x is below p |
| SmallMod.UnreducedExample | sgx_worker/lib/mcl/include/mcl/bint.hpp:578-581 | 65537 modulo 65537 takes the zero-quotient shortcut and comes out as 65537, though the remainder is 0 |
| SmallMod.MontStep | sgx_worker/lib/mcl/include/mcl/bint.hpp:501-508 | the invariant p pp = 2^i t + 2^i - 1 modulo 2^64 survives a turn even when the addition wraps |
| SmallMod.GetMontgomeryCoeff | sgx_worker/lib/mcl/include/mcl/bint.hpp:496-510 | p pp = -1 modulo 2^bitSize, with pp below it |
| Sha2.ChoiceForm | sgx_worker/lib/mcl/include/cybozu/sha2.hpp:321 | the code's choice expression is the standard's Ch |
| Sha2.MajorityForm | sgx_worker/lib/mcl/include/cybozu/sha2.hpp:329 | the code's majority expression is the standard's Maj |
| Sha2Standard.RotateForm | sgx_worker/lib/mcl/include/cybozu/sha2.hpp:231-238 | two shifts put together are the rotation, for each of the ten amounts in use |
| Sha2.Round1 | sgx_worker/lib/mcl/include/cybozu/sha2.hpp:312-331 | with renamed registers, writing only two of them is one step of section 6.2.2 of FIPS 180-4 |
| Sha2.Sha256.Schedule | sgx_worker/lib/mcl/include/cybozu/sha2.hpp:338-348 | the 64 message schedule words |
| Sha2.Sha256.Round8 | sgx_worker/lib/mcl/include/cybozu/sha2.hpp:353-362 | eight renamed rounds are eight steps, every register back under its name |
| Sha2.Sha256.Round | sgx_worker/lib/mcl/include/cybozu/sha2.hpp:335-367 | one block is the compression function; the byte counter advances modulo 2^64 |
| Sha2.AbsorbAppend | sgx_worker/lib/mcl/include/cybozu/sha2.hpp:281-286 | absorbing whole blocks in two pieces is absorbing them at once |
| Sha2.PadShape | sgx_worker/lib/mcl/include/cybozu/sha2.hpp:251-265 | the one or two blocks formed at the end are the padding of section 5.1.1 |
| Sha2.Sha256.Update | sgx_worker/lib/mcl/include/cybozu/sha2.hpp:266-294 | however the input is split, the object stands for the concatenation |
| Sha2.Sha256.Term | sgx_worker/lib/mcl/include/cybozu/sha2.hpp:251-265 | the registers end as the state after the padded message |
| Sha2.Sha256.Digest | sgx_worker/lib/mcl/include/cybozu/sha2.hpp:401-411 | writes `Hash` of everything given, in the first 32 bytes and nowhere else, or changes nothing when the output buffer is too small; what `Hash` is stands in the next three rows |
| Sha2Abc.KnownAnswer | sgx_worker/lib/mcl/include/cybozu/sha2.hpp:312-411 | the hash of "abc" is ba7816bf 8f01cfea 414140de 5dae2223 b00361a3 96177a9c b410ff61 f20015ad, the answer published with FIPS 180-4, from the definitions through all 48 derived schedule words and 64 rounds |
| Sha2Standard.PaddedMessage | sgx_worker/lib/mcl/include/cybozu/sha2.hpp:251-265 | for every message: the padded message starts with it, goes on with 0x80 and zeros, ends with the bit length modulo 2^64 as a big-endian number of eight bytes, and is the shortest such string of whole 64-byte blocks |
| Sha2Standard.DigestNumbers | sgx_worker/lib/mcl/include/cybozu/sha2.hpp:401-411 | the digest is the eight registers in order, each as a big-endian number |
| Sha2Standard.HmacForm | sgx_worker/lib/mcl/include/cybozu/sha2.hpp:581-606 | for a key of at most 64 bytes: the hash of the key flipped with 0x5c, filled up with 0x5c, and of the hash of the key flipped with 0x36, filled up with 0x36, and the message |
| Sha2Standard.HmacLongKey | sgx_worker/lib/mcl/include/cybozu/sha2.hpp:588-591 | a longer key stands for its hash |
| Sha2.KeyBlock | sgx_worker/lib/mcl/include/cybozu/sha2.hpp:581-596 | the key brought to block length as section 2 of RFC 2104 prescribes |
| Sha2.Hmac256 | sgx_worker/lib/mcl/include/cybozu/sha2.hpp:581-606 | the nested hashes of RFC 2104, with one reused object and one re-padded key block |
| Paillier.PowersAreLinear | sgx_worker/lib/mcl/include/mcl/paillier.hpp:22-28 | (1 + n)^k = 1 + k n modulo n^2 |
| Paillier.PublicKey.Enc | sgx_worker/lib/mcl/include/mcl/paillier.hpp:29-39 | fails exactly on an uninitialised key; otherwise the result hides m behind a blinding whenever the drawn number blinds |
| Paillier.PublicKey.Add | sgx_worker/lib/mcl/include/mcl/paillier.hpp:40-47 | ciphertexts hiding x and y give one hiding x + y |
| Paillier.SecretKey.Dec | sgx_worker/lib/mcl/include/mcl/paillier.hpp:77-83 | recovers every hidden message modulo n |
| Paillier.DecRecovers | sgx_worker/lib/mcl/include/mcl/paillier.hpp:77-83 | the decryption formula on a ciphertext hiding m is m mod n, so m itself below n |
| Paillier.SumDecrypts | sgx_worker/lib/mcl/include/mcl/paillier.hpp:40-83 | any sum of ciphertexts decrypts to the sum of the messages modulo n |
| Groups.MultCong | sgx_worker/lib/mcl/include/mcl/ecdsa.hpp:391-451 | scalars only matter modulo an order of the point |
| Ecdsa.SignatureRight | sgx_worker/lib/mcl/include/mcl/ecdsa.hpp:402-411 | when s k is plus or minus z + r d modulo n, verification recovers plus or minus k times the base point |
| Ecdsa.NormalizeSignature | sgx_worker/lib/mcl/include/mcl/ecdsa.hpp:383-389 | the result is in the lower half and is s or its mirror image |
| Ecdsa.Sign | sgx_worker/lib/mcl/include/mcl/ecdsa.hpp:391-414 | the first usable number drawn makes the signature, none if there is none: r is the coordinate of its multiple of the base point, s solves s k = z + r d modulo n up to sign in the lower half, and the signature is accepted under the signer's public key |
| Ecdsa.Verify | sgx_worker/lib/mcl/include/mcl/ecdsa.hpp:428-451 | accepts exactly when r and s are not zero, 2 s < n, and u1 times the base plus u2 times the key is not zero and has first coordinate r modulo n, whichever scalars solve u1 s = z and u2 s = r |
| Ecdsa.JustOneAccepted | sgx_worker/lib/mcl/include/mcl/ecdsa.hpp:428-451 | of a signature and its mirror image never both are accepted, and one is exactly when the recovered point matches |
| Der.MinimalUnique | sgx_worker/lib/mcl/include/mcl/ecdsa.hpp:92-101 | a minimal byte string is the one the writer makes of its value |
| Der.BigEndian | sgx_worker/lib/mcl/include/mcl/ecdsa.hpp:92-101 | the first byte of a number weighs most |
| Der.ContentsForm | sgx_worker/lib/mcl/include/mcl/ecdsa.hpp:324-350 | section 8.3 of X.690: contents have the number as their big-endian value, a top bit of zero and no needless leading zero |
| Der.SignatureBytes | sgx_worker/lib/mcl/include/mcl/ecdsa.hpp:324-350 | tag 0x30 and the length of the rest, then twice tag 2, a length and the contents |
| Der.GetBigEndian | sgx_worker/lib/mcl/include/mcl/ecdsa.hpp:104-110 | stripping and swapping the fixed buffer gives the shortest big-endian form |
| Der.ContentsRead | sgx_worker/lib/mcl/include/mcl/ecdsa.hpp:92-101 | contents that pass the sign and minimality checks are the contents of the number read |
| Der.LoadBigEndian | sgx_worker/lib/mcl/include/mcl/ecdsa.hpp:78-102 | reads the integer below n at the cursor, or none stands there |
| Der.Save | sgx_worker/lib/mcl/include/mcl/ecdsa.hpp:324-350 | writes the encoding of any two numbers of at most 32 bytes |
| Der.Load | sgx_worker/lib/mcl/include/mcl/ecdsa.hpp:283-308 | accepts exactly inputs that start with the encoding of a pair below n, and returns the pair |
| Der.DerSignatureUnique | sgx_worker/lib/mcl/include/mcl/ecdsa.hpp:283-352 | a byte string starts with at most one encoding, so writing and reading are mutual inverses |
| Kms.Enclave.RegisterPolicyFid | sgx_kms/Enclave/Enclave.cpp:86-109 | the registration transition: write-once, bounded table, truncated name |
| Kms.Enclave.BindLabelToFid | sgx_kms/Enclave/Enclave.cpp:112-146 | the binding transition: may create the entry, at most four labels, idempotent |
| Kms.Enclave.IsLabelBoundToFid | sgx_kms/Enclave/Enclave.cpp:149-161 | decides whether the label is bound |
| Kms.Enclave.VerifyRaForFid | sgx_kms/Enclave/Enclave.cpp:164-187 | decides the attestation gate |
| Kms.Enclave.VerifyReportDataBinding | sgx_kms/Enclave/Enclave.cpp:195-225 | decides the key gate |
| Kms.Enclave.EcallVerifyQuoteForFid | sgx_kms/Enclave/Enclave.cpp:346-439 | the verification transition, which clears the old verification first; `Kms.QuoteLayout` says which bytes of a quote it measures and when it succeeds |
| Kms.QuoteLayout | sgx_kms/Enclave/Enclave.cpp:395-436 | for quotes of 48 + 64, 32, 224 and 64 bytes and any rest: the call succeeds if and only if the fid has no policy or its policy is the 32-byte part; the state is then verified with that measurement, with the 64-byte part as report data, and for that fid, else it is unverified |
| Kms.ShortQuote | sgx_kms/Enclave/Enclave.cpp:386-393 | without a fid, or with fewer than 432 bytes, the call fails and leaves the state unverified |
| Kms.Enclave.EcallSetRaResult | sgx_kms/Enclave/Enclave.cpp:1171-1181 | the host can only clear the verification |
| Kms.Enclave.EcallGetKey | sgx_kms/Enclave/Enclave.cpp:455-540 | the gates of the single-key request; `Kms.KeyIsJustified`, `Kms.KeyIsGranted` and `Kms.DefaultFid` say, without the gates' names, when they open |
| Kms.Enclave.EcallDeriveKeysBatch | sgx_kms/Enclave/Enclave.cpp:665-695 | the gates of the batch request; the same lemmas and `Kms.ReleaseIsJustified` say when they open |
| Kms.Enclave.EcallGetBfibeKeyRelease | sgx_kms/Enclave/Enclave.cpp:904-931 | the gates of the BF-IBE release |
| Kms.StepGrows | sgx_kms/Enclave/Enclave.cpp:86-146 | any ecall only adds entries, policies and labels, within the fixed sizes |
| Kms.RunsAreSized | sgx_kms/Enclave/Enclave.cpp:52-66 | every run stays within the fixed sizes |
| Kms.PoliciesAreWriteOnce | sgx_kms/Enclave/Enclave.cpp:44-49 | in every run a set policy never changes and a binding never disappears |
| Kms.RegistrationTakesEffect | sgx_kms/Enclave/Enclave.cpp:86-109 | after a reported success the policy is found under the full name exactly for names of at most 127 characters |
| Kms.BindingTakesEffect | sgx_kms/Enclave/Enclave.cpp:112-146 | after a reported success the label is found exactly when name and label fit their slots |
| Kms.VerifiedHasCause | sgx_kms/Enclave/Enclave.cpp:346-439 | a verified state was left by the latest verification event, a success on that very quote and fid |
| Kms.LabelHasCause | sgx_kms/Enclave/Enclave.cpp:112-146 | every stored label was put there by an earlier successful bind of that fid and label |
| Kms.ReleaseIsJustified | sgx_kms/Enclave/Enclave.cpp:904-931 | in every run a BF-IBE release, or a batch release for any fid but "default_fid", follows a latest verification that succeeded and carries the hash of the requesting key at bytes 368 to 400 of its quote, and a bind of fid and label; with a policy, that verification was of this fid and has the policy at bytes 112 to 144 |
| Kms.KeyIsJustified | sgx_kms/Enclave/Enclave.cpp:455-474 | the same verification stands behind every single-key request that succeeds for any fid but "default_fid" |
| Kms.PolicyIsNeverBypassed | sgx_kms/Enclave/Enclave.cpp:164-187 | for all three calls that hand out keys and for every fid, "default_fid" included: with a policy, keys leave only after a latest verification that succeeded, of that very fid and with the policy at bytes 112 to 144 of its quote |
| Kms.KeyIsGranted | sgx_kms/Enclave/Enclave.cpp:455-474 | the converse, for all three calls: after a latest verification that succeeded with the hash of the requesting key, and that was of this fid and its measurement if there is a policy, the call succeeds if and only if the foreign steps do and, except for a single key, the label is bound |
| Kms.DefaultFid | sgx_kms/Enclave/Enclave.cpp:469-474 | "default_fid" without a policy gets its key from any state exactly when the foreign steps succeed, and a batch exactly when its label is bound as well; a BF-IBE release is not exempt |
| Kms.VerificationLasts | sgx_kms/Enclave/Enclave.cpp:346-439 | a verification stays in force until the next verification event, whatever is called in between |
| Kms.PolicyHasCause | sgx_kms/Enclave/Enclave.cpp:86-109 | every policy in every run was set by an earlier registration that succeeded, of that fid and that measurement |
| Kms.RegisterSucceeds | sgx_kms/Enclave/Enclave.cpp:86-109 | registration succeeds if and only if the fid has no policy and either has an entry or finds fewer than 128 entries; a refusal changes nothing |
| Kms.BindSucceeds | sgx_kms/Enclave/Enclave.cpp:112-146 | binding succeeds if and only if the label is bound already, or the fid holds fewer than four labels and either has an entry or finds fewer than 128 entries |
| Kms.RegisteredForGood | sgx_kms/Enclave/Enclave.cpp:86-109 | in every run a policy that was registered for a name of at most 127 bytes holds for it ever after |
| Kms.BoundForGood | sgx_kms/Enclave/Enclave.cpp:112-146 | in every run a label of at most 64 bytes that was bound to such a name stays bound to it |
| ByteStrings.U32RoundTrip | sgx_worker/Enclave/Enclave.cpp:513-521 | writing a 32-bit number big-endian and reading it are mutual inverses |
| Wire.Writer.AppendBytes | sgx_kms/Enclave/Enclave.cpp:718-727 | appends exactly when the bytes fit, else changes no contents |
| Wire.Writer.AppendU32 | sgx_kms/Enclave/Enclave.cpp:733-737 | appends the big-endian number exactly when it fits |
| Wire.Reader.ReadU32 | sgx_worker/Enclave/Enclave.cpp:513-521 | reads exactly when four bytes remain; what was consumed grows by the encoding of the number |
| Wire.Reader.TakeBytes | sgx_worker/Enclave/Enclave.cpp:523-530 | takes exactly when enough bytes remain; what was consumed grows by them |
| Wire.BuildRelease | sgx_kms/Enclave/Enclave.cpp:840-875 | succeeds exactly when the encoding fits and then writes it |
| Wire.BuildAad | sgx_kms/Enclave/Enclave.cpp:815-838 | succeeds exactly when the associated data fit and then writes them; both enclaves use this one layout |
| Wire.TaggedInjective | sgx_worker/Enclave/Enclave.cpp:552-555 | under one magic, length-prefixed parts can be told from the whole |
| Wire.BuildKeySet | sgx_kms/Enclave/Enclave.cpp:771-813 | succeeds exactly when the two-record set fits and then writes it |
| Wire.ReleaseUnique | sgx_worker/Enclave/Enclave.cpp:563-602 | a byte string starts with at most one release |
| Wire.ParseRelease | sgx_worker/Enclave/Enclave.cpp:557-602 | accepts exactly the encodings of acceptable releases and returns the release encoded |
| Wire.DecodeRelease | crypto_lib/bfibe_key_release.py:190-247 | accepts exactly the encodings of its own values, so decoding undoes encoding and every accepted string re-encodes to itself |
| Wire.PayloadLen | sgx_worker/App/App.cpp:369-415 | the length of the release a response starts with, whatever follows; refused exactly when it starts with none of at most 4096 bytes |
| Formats.ReleaseBytes | sgx_kms/Enclave/Enclave.cpp:840-875 | a byte string encodes a release if and only if it is "ASBFREL1", 1, six big-endian lengths and the six parts in their order, and nothing else |
| Formats.ReadByWorker | sgx_worker/Enclave/Enclave.cpp:557-602 | the worker reads a release if and only if the whole string spells it, with the one profile, a 64-byte wrapping key, a 12-byte nonce and more than 16 bytes of ciphertext |
| Formats.ReadByTools | crypto_lib/bfibe_key_release.py:190-247 | the Python tools read one if and only if the string spells it, with the one profile, a 12-byte nonce, no empty part and text for fid and worker |
| Formats.TaggedBytes | sgx_kms/Enclave/Enclave.cpp:815-838 | associated data are a magic and four parts, each after its big-endian length, at these positions |
| Formats.KeySetBytes | sgx_kms/Enclave/Enclave.cpp:771-813 | a byte string encodes a record list if and only if it is "ASBFSKS1", 1, 18, the number of records, the profile, and each record as three lengths and three parts, and nothing else |
| KeySets.RecordsAgree | crypto_lib/bfibe_key_release.py:95-115 | record lists that start the same bytes agree as far as the shorter goes |
| KeySets.KeySetUnique | crypto_lib/bfibe_key_release.py:95-115 | a byte string encodes at most one record list |
| KeySets.ReadRecord | sgx_worker/Enclave/Enclave.cpp:687-699 | reads the record at the cursor, or no acceptable record stands there |
| KeySets.DecodeKeySet | crypto_lib/bfibe_key_release.py:118-168 | for any number of records: accepts exactly the encodings of its own values |
| KeySets.EncodeSet | crypto_lib/bfibe_key_release.py:95-115 | the loop writes the encoding of the whole list |
| Formats.KeySetReadByWorker | sgx_worker/Enclave/Enclave.cpp:657-718 | the worker reads a record list if and only if the string spells it, every record is a request key for this fid or a function key for some label, of 1 to 256 bytes, and both purposes occur |
| Formats.KeySetReadByTools | crypto_lib/bfibe_key_release.py:118-168 | the Python tools read one if and only if the string spells it, it is not empty, and every record has a known purpose, a text for its identity and a key |
| Formats.LastKeyIs | sgx_worker/Enclave/Enclave.cpp:638-652 | of several records with one purpose the last one's key is held |
| Envelopes.EnvelopeUnique | crypto_lib/bfibe_envelope.py:61-81 | a byte string starts with at most one envelope |
| Envelopes.ParseEnvelope | sgx_worker/Enclave/Enclave.cpp:1040-1096 | accepts exactly the encodings of acceptable envelopes and returns the envelope encoded |
| Envelopes.DecodeEnvelope | crypto_lib/bfibe_envelope.py:84-145 | accepts exactly the encodings of its own values, so decoding undoes encoding and every accepted string re-encodes to itself |
| Envelopes.DecodeEnvelopeTool | crypto_lib/bfibe_mcl_client_tool.cpp:276-308 | accepts exactly the encodings of envelopes with the known profile |
| Formats.EnvelopeBytes | crypto_lib/bfibe_envelope.py:61-81 | a byte string encodes an envelope if and only if it is "ASBFIBE1", 1, seven big-endian lengths and the seven parts in their order, and nothing else |
| Formats.EnvelopeMark | sgx_worker/Enclave/Enclave.cpp:1040-1044 | what the worker takes for an envelope is known by those first nine bytes |
| Formats.EnvelopeReadByWorker | sgx_worker/Enclave/Enclave.cpp:1040-1096 | what the worker reads: the one profile, a known purpose, some identity and point, a 12-byte nonce and more than 16 bytes of ciphertext |
| Formats.EnvelopeReadByPython | crypto_lib/bfibe_envelope.py:84-145 | what the Python library reads: any ciphertext that is not empty, and a text for the identity |
| Formats.EnvelopeReadByTool | crypto_lib/bfibe_mcl_client_tool.cpp:276-308 | the client tool looks at the profile alone |
| Envelopes.EnvelopeAadInjective | crypto_lib/bfibe_envelope.py:148-158 | equal associated data have equal profile, purpose, identity and context |
| Envelopes.AadsApart | sgx_worker/Enclave/Enclave.cpp:1098-1111 | the associated data of an envelope are never those of a release |
| KeyRelease.HexInjective | sgx_kms/Enclave/Enclave.cpp:744-755 | different measurements have different hexadecimal names |
| KeyRelease.HexAt | sgx_kms/Enclave/Enclave.cpp:744-755 | byte k becomes its two lower-case digits at 2k and 2k + 1 |
| KeyRelease.HexEncode | sgx_kms/Enclave/Enclave.cpp:744-755 | writes two lower-case digits a byte |
| KeyRelease.AadInjective | crypto_lib/bfibe_key_release.py:250-257 | equal associated data have equal profile, fid, worker identity and wrapping key |
| KeyRelease.AadNamesWorker | sgx_kms/Enclave/Enclave.cpp:765-838 | associated data for one fid and measurement never fit another |
| KeyRelease.GetBfibeKeyRelease | sgx_kms/Enclave/Enclave.cpp:933-1092 | after the gates succeeds exactly for fids of at most 54 bytes, labels of at most 65, successful foreign steps and a large enough buffer; writes the release of the two extracted keys, never more than 994 bytes |
| WorkerEnclave.Worker.EcallDecryptKey | sgx_worker/Enclave/Enclave.cpp:277-342 | the legacy load: a change of fid empties the cache, a failure changes nothing |
| WorkerEnclave.Worker.EcallDecryptKeysBatch | sgx_worker/Enclave/Enclave.cpp:350-460 | the batch load; `LegacyPath.BothKeysArrive` and `LegacyPath.FirstKeyAlone` say which key goes where and what a half failure leaves |
| WorkerEnclave.Worker.ImportRecord | sgx_worker/Enclave/Enclave.cpp:619-655 | accepts exactly importable records and stores the key under its purpose |
| WorkerEnclave.Worker.ParseKeySet | sgx_worker/Enclave/Enclave.cpp:657-718 | imports exactly the encodings of acceptable record lists, each key being the last of its purpose; a failure leaves the keys untouched, wiped, or those of a complete but unacceptable list |
| WorkerEnclave.Worker.DecryptRelease | sgx_worker/Enclave/Enclave.cpp:731-777 | the plaintext of a parsed release for this fid, under the same associated data the KMS built |
| WorkerEnclave.Worker.EcallLoadBfibeKeyRelease | sgx_worker/Enclave/Enclave.cpp:720-804 | succeeds exactly when the release can be read as some record list and then holds its keys; a failure changes at most the key bytes |
| WorkerEnclave.Worker.EcallHasKey | sgx_worker/Enclave/Enclave.cpp:462-470 | answers whether some key is loaded for the fid |
| WorkerEnclave.Worker.FunctionCacheLookup | sgx_worker/Enclave/Enclave.cpp:961-972 | finds the code exactly for the stored fid and hash; `CodeCache.WarmCallHits` says over whole runs when it does |
| WorkerEnclave.Worker.FunctionCacheStore | sgx_worker/Enclave/Enclave.cpp:974-992 | replaces the entry, except by empty code |
| WorkerEnclave.Worker.OpenEnvelope | sgx_worker/Enclave/Enclave.cpp:1131-1195 | context, identity, held key, size of the associated data and foreign decryption, in that order |
| WorkerEnclave.Worker.DecryptKeyCiphertext | sgx_worker/Enclave/Enclave.cpp:1113-1269 | the key inside a key ciphertext of either kind; an envelope is opened exactly when it is the encoding of an acceptable one |
| WorkerEnclave.Worker.CodeFor | sgx_worker/Enclave/Enclave.cpp:1700-1768 | the cached code or else the decrypted one, which is then stored unless it is empty |
| WorkerEnclave.Worker.EcallRunEncryptedWasm | sgx_worker/Enclave/Enclave.cpp:1578-1795 | the invocation transition up to the hand-over to the runtime, cold and warm; `CodeCache.RunsExactly` says what it runs, `CodeCache.MissStores` and `CodeCache.EntryKept` what it does to the cache |
| WorkerEnclave.StepLegal | sgx_worker/Enclave/Enclave.cpp:331-337 | any call keeps the entry within the loaded fids, and a new entry was decrypted by that call |
| WorkerEnclave.CacheHasCause | sgx_worker/Enclave/Enclave.cpp:939-992 | in every run an entry belongs to a fid loaded ever since it was stored and holds the plaintext of an earlier successful decryption for that fid of a ciphertext with that hash |
| WorkerEnclave.HitRunsStoredCode | sgx_worker/Enclave/Enclave.cpp:2057-2186 | a hit runs exactly the code an earlier miss decrypted, the entry unchanged and the fid loaded in between |
| WorkerEnclave.RunsDecryptedCode | sgx_worker/Enclave/Enclave.cpp:1636-1768 | whatever runs was decrypted, then or earlier, for the fid of the invocation and a ciphertext of the same hash |
| WorkerEnclave.OwnContext | sgx_worker/Enclave/Enclave.cpp:1131-1159 | an envelope opens only for its own context and for the identity of a key that is held |
| WorkerEnclave.SlotsApart | sgx_worker/Enclave/Enclave.cpp:1331-1367 | no envelope ever opens both as a request key and as a function key |
| WorkerEnclave.RequestEnvelopeBinds | sgx_worker/Enclave/Enclave.cpp:1346-1367 | a request envelope that opens in two invocations opens for the same fid bytes, nonce and client key hash |
| WorkerEnclave.RunsOwnEnvelopes | sgx_worker/Enclave/Enclave.cpp:1664-1690 | in every run a BF-IBE invocation that reaches the runtime opened an envelope made for its own fid, nonce and client key, and its code was decrypted by a call that, if a BF-IBE one, opened an envelope made for its own fid |
| CodeCache.WarmCallHits | sgx_worker/Enclave/Enclave.cpp:961-972 | in every run, non-empty code that call m decrypted and ran is run again from the cache by a later call n, for a fid with the same first 128 characters and a ciphertext with the same hash, when every call in between left the entry alone, call n's slot is loaded, and its request key and input open; no key ciphertext for the function is asked for |
| CodeCache.EntryKept | sgx_worker/Enclave/Enclave.cpp:331-337 | exactly these calls keep an entry: key loads that fail or find a fid with the same first 128 characters in the slot they load, and invocations that find their own code or decrypt none |
| CodeCache.LongFidReload | sgx_worker/Enclave/Enclave.cpp:796-801 | a BF-IBE load for a fid of 128 or more bytes empties the cache in every state that a run reaches, even when the same fid was loaded before |
| CodeCache.RunsExactly | sgx_worker/Enclave/Enclave.cpp:1578-1795 | an invocation hands over a code and an input if and only if the slot that its two key ciphertexts call for is loaded, the request key opens under "REQ" data or "C_KEY", the input opens or is empty, and the code is the cached one or opens under the function key, "PKG" data or "C_K_FUNC" and the label key held or derived |
| CodeCache.MissStores | sgx_worker/Enclave/Enclave.cpp:1745-1768 | code that was decrypted and run is cached for the fid and the ciphertext hash it ran under |
| CodeCache.OnlyTheCache | sgx_worker/Enclave/Enclave.cpp:1578-1795 | an invocation changes nothing else |
| LegacyPath.SealKey | sgx_kms/Enclave/Enclave.cpp:497-535 | the 124-byte packet: the enclave's public key, nonce, tag and the key sealed under the first half of the shared secret |
| LegacyPath.PacketOpens | sgx_worker/Enclave/Enclave.cpp:277-325 | the worker whose public key a packet was sealed for opens it |
| LegacyPath.KeyArrives | sgx_worker/Enclave/Enclave.cpp:277-342 | a packet with key k makes k the worker's key for this fid; the cache survives exactly a fid with the same first 128 characters |
| LegacyPath.BothKeysArrive | sgx_worker/Enclave/Enclave.cpp:350-460 | packets with keys k and l make k the worker's key and l its label key, marked as sent by the KMS |
| LegacyPath.FirstKeyAlone | sgx_worker/Enclave/Enclave.cpp:389-437 | when the second packet does not open, k is kept and nothing else changes |
| LegacyPath.Respond | sgx_kms/Enclave/Enclave.cpp:603-695 | the response exists exactly when the gates pass and both key agreements succeed; it carries the key of the fid first and the key of the label second |
| LegacyPath.HandOver | sgx_worker/App/App.cpp:498-537 | the host passes bytes 0 to 124 and 124 to 248 on, unless the response reads as a release |
| LegacyPath.FetchKeysBatch | sgx_worker/App/App.cpp:498-537 | gates, packets, host and import together: succeeds exactly when the gates pass, both key agreements succeed and the enclave's first public key does not start like a release; then the worker's key is 32 times 0xBB for "default_fid" or the hash of master key and fid, and its label key the hash of master key and label |
| LegacyPath.EncryptKeyCiphertext | client_sdk/worker_smoke_artifacts.py:87-115 | refuses keys of other sizes than 16 and 32; else an uncompressed big-endian point, nonce, tag and the key sealed under the hash of the shared secret and "ECC-IBE-ENC" |
| LegacyPath.CiphertextOpens | sgx_worker/Enclave/Enclave.cpp:1196-1269 | whoever holds the capability gets the key |
| LegacyPath.OpensOnly | sgx_worker/Enclave/Enclave.cpp:1196-1269 | a key ciphertext opens if and only if it has 109 or 125 bytes and the marker 4, its point agrees with the capability on a secret, and the rest opens under it |
| LegacyPath.LegacyRuns | sgx_worker/Enclave/Enclave.cpp:1578-1795 | a worker runs the code and input prepared for its key and its label key, or for the label key it derives itself when none was sent, unless code is cached for its fid and the ciphertext hash |
| LegacyPath.FetchedKeysRun | sgx_worker/Enclave/Enclave.cpp:350-460 | from packets to a run: what was prepared for the two keys runs in a worker that loaded them, for every choice of keys, code and input |
| Delivery.SentIsTaken | sgx_kms/Enclave/Enclave.cpp:978-992 | the two records the KMS sends are importable and yield the two extracted keys |
| Delivery.ReleaseLoads | sgx_worker/Enclave/Enclave.cpp:720-804 | what the KMS releases for a worker's key loads in that worker |
| Delivery.ReleaseContents | sgx_kms/Enclave/Enclave.cpp:978-1092 | the release written out: both keys under "request-key" and "function-key", sealed under the first half of the shared secret with the other fields as associated data |
| Delivery.LoadedIsOwn | sgx_worker/Enclave/Enclave.cpp:720-804 | whatever loads names the fid it is loaded for, and opens under the secret shared with the worker and with all other fields of the release as associated data |
| Delivery.LoadUnique | sgx_worker/Enclave/Enclave.cpp:720-804 | a byte string loads in at most one way |
| Delivery.OnlyStart | sgx_worker/App/App.cpp:385-415 | a response made of a release and any trailer starts with that release and no other, so its length is found exactly |
| Delivery.Carry | sgx_worker/App/App.cpp:498-515 | from extraction to import: succeeds exactly when the release can be built, and then loads exactly the keys sent |
| Delivery.FetchKeys | sgx_worker/App/App.cpp:498-515 | gates, release, host and import together: succeeds exactly when the gates of the KMS pass, fid and label have at most 54 and 65 bytes, both extractions and the key agreement succeed; then the worker holds the keys of "fid:" + fid and "label:" + label, is loaded for the fid and keeps its cache only if a fid with the same first 128 characters was loaded; otherwise it is unchanged |
| Delivery.EncryptKeyEnvelope | crypto_lib/bfibe_mcl_client_tool.cpp:337-396 | succeeds exactly for a known purpose, a key of 16 or 32 bytes, a 12-byte nonce and successful foreign steps, and writes the envelope, sealed with profile, purpose, identity and context as associated data, which the worker's reader accepts |
| Delivery.SealedOpens | sgx_worker/Enclave/Enclave.cpp:1113-1202 | the worker opens what the client sealed for an identity whose key it holds, in that context and in no other |
| Delivery.OpensExactly | sgx_worker/Enclave/Enclave.cpp:1131-1195 | an envelope opens if and only if its context is the expected one, its identity fits its purpose and this worker, the key for that purpose is held, the associated data fit 512 bytes, and a sealed key of 16 or 32 bytes opens under the pairing value |
| Delivery.HexFid | sgx_worker/Enclave/Enclave.cpp:1287-1327 | 64 hexadecimal digits of either case stand for the 32 bytes they spell |
| Delivery.PlainFid | sgx_worker/Enclave/Enclave.cpp:1287-1327 | any other fid stands for its first 128 bytes |
| Delivery.HexFidComesBack | sgx_worker/Enclave/Enclave.cpp:1287-1327 | 32 bytes written as lower-case digits come back |
| Delivery.Contexts | sgx_worker/Enclave/Enclave.cpp:1331-1367 | the associated data are "PKG" and the fid's bytes, or "REQ", the fid's bytes, the nonce and the hash of the client's key |
| Delivery.PreparedRuns | sgx_worker/Enclave/Enclave.cpp:1578-1795 | a worker that fetched the keys of fid and label runs the code and input the client prepared for them, or the code cached for that fid and ciphertext hash |
| Base64.DecodeUndoes | workloads/c3_deterministic_io/src/main.rs:28-82 | decoding undoes encoding on every byte string |
| Base64.Alphabet | workloads/c3_deterministic_io/src/main.rs:15-26 | A to Z, a to z, 0 to 9, + and /, and decoding a character is looking it up |
| Base64.EncodedAt | workloads/c3_deterministic_io/src/main.rs:61-82 | for every input and group: four characters for bits 7..2, then 4, 2 and 6 bits across three bytes, '=' for missing bytes |
| Base64.DecodesExactly | workloads/c3_deterministic_io/src/main.rs:28-59 | accepted are exactly whole groups of alphabet characters whose last one or two may be '=' |
| Base64.DecodedAt | workloads/c3_deterministic_io/src/main.rs:50-56 | every group decodes to the bytes of its 24-bit number, so leftover bits below the last byte do not matter |
| Base64.DecodeBase64 | workloads/c3_deterministic_io/src/main.rs:28-59 | the loop decodes group by group; padding only in the last group, wrong lengths and digits are refused |
| Base64.EncodeBase64 | workloads/c3_deterministic_io/src/main.rs:61-82 | the loop writes the encoding of RFC 4648 section 4 |
| Base64.FilledEnds | sgx_worker/Enclave/Enclave.cpp:143-151 | overwriting the last digits of zero-filled groups with padding gives the encoding |
| Base64.EnclaveEncode | sgx_worker/Enclave/Enclave.cpp:123-153 | nothing for no input, otherwise the same encoding as the workload's |
| PaddedModule.Uleb128 | workloads/c2_sleep50_package_grid/build_artifacts.py:16-27 | refuses exactly negative numbers and writes the encoding of all others |
| PaddedModule.UlebRead | workloads/c2_sleep50_package_grid/build_artifacts.py:16-27 | the reader of section 5.2.2 of WebAssembly Core gets the number back, whatever follows |
| PaddedModule.UlebExample | workloads/c2_sleep50_package_grid/build_artifacts.py:16-27 | 624485 is e5 8e 26, as in the documents that define the code |
| PaddedModule.SectionReads | workloads/c2_sleep50_package_grid/build_artifacts.py:40-42 | what is appended reads as exactly one custom section named "asyncs.c2.padding.v1" (section 5.5.3 of WebAssembly Core) and starts with the id 0 |
| PaddedModule.NothingFitsGap | workloads/c2_sleep50_package_grid/build_artifacts.py:40-42 | no padding length makes a section of 128^k + k + 1 bytes |
| PaddedModule.FixedPoint | workloads/c2_sleep50_package_grid/build_artifacts.py:51-59 | every other total from 28 on has a fitting payload size |
| PaddedModule.Converges | workloads/c2_sleep50_package_grid/build_artifacts.py:51-59 | and the search has it by its third turn |
| PaddedModule.ShortTotals | workloads/c2_sleep50_package_grid/build_artifacts.py:51-59 | what the search does for every smaller total |
| PaddedModule.MissedChances | workloads/c2_sleep50_package_grid/build_artifacts.py:51-60 | payloads for totals of 24 and 25 exist, and the search finds neither |
| PaddedModule.FeasibleIs | workloads/c2_sleep50_package_grid/build_artifacts.py:45-60 | feasible are 23, 26, 27 and every amount from 28 on that is not 128^k + k + 1 for any k above zero |
| PaddedModule.DeterministicPadding | workloads/c2_sleep50_package_grid/build_artifacts.py:30-37 | as many bytes of the hash stream as asked for, none for a negative length; byte i is byte i mod 32 of hash number i / 32 |
| PaddedModule.Pad | workloads/c2_sleep50_package_grid/build_artifacts.py:45-60 | succeeds exactly for WebAssembly modules with a feasible amount of room, and returns the base and one custom section, of exactly the target size |

## Left out

- InvMod.Exec: the fixed number of words of a signed integer is not modelled; BatchBounded and the bound on d say how large the values get. The canonical range is stated under its exact condition on the exit value, because no elementary argument excludes the other case for every number of turns.
- InvMod.Correction: 64-bit wrap-around is modelled for the low words only, where the code relies on it.
- InvMod.UpdateFG: values passed by reference and updated in place are in- and out-values here; aliasing is not captured. The same holds for UpdateDE and Normalize.
- NttModel.Transform.Init: the test for powers of two is stated by its meaning instead of by its bit trick, and the field's own inverse of the length is an argument.
- Curve.AddJacobi: projective mode and mixed modes. That the chord-and-tangent sum is associative is not proved, so scalar multiplication is stated for any abelian group.
- Curve.IsValid: the optional check that the order of the point divides a given number.
- ScalarMul.GetNafWidth: width 1, which no caller uses and with which the code fills the array for every number but zero.
- ScalarMul.MulArray: the choice of an endomorphism-based method for some groups; the capacity of the digit array is a parameter. What a build without assertions goes on to compute from digits that do not fit is not modelled.
- ScalarMul.MulVecN: the loop that cuts longer vectors into pieces; the normalisation of the tables, which changes no point, is modelled in Curve.NormalizeVec.
- Sha2.Sha256.Digest: SHA-512, which has the same shape with other constants; messages of 2^61 bytes or more have their length taken modulo 2^64, as the code's counter does.
- SmallMod.SmallModP.QuotOf: inputs of fewer than 16 bits that are not shorter than the modulus, for which the position of the bits to read wraps below zero; the precondition names them.
- SmallMod.SmallModP.Mod: the same inputs, and word arrays; numbers are unbounded and only the 32-bit product is cut.
- Paillier.PublicKey.Enc: that random numbers blind is a hypothesis (Euler's theorem modulo n^2), and so is the existence of the inverse of lambda. Prime generation is not modelled.
- Kms.Enclave.EcallGetKey: key derivation, ECDH, AES-GCM and sealing are one flag, the outcome of the foreign steps. Public parameters and the self-test have no gates and are absent.
- Kms.Enclave.EcallVerifyQuoteForFid: the signature chain of a quote is checked by the host, outside both enclaves.
- KeyRelease.GetBfibeKeyRelease: lengths of C strings fit 32 bits; failures of memory allocation and of the random source are absent.
- Wire.ParseRelease: shifts and ors of disjoint bytes are written as sums.
- WorkerEnclave.Worker.EcallDecryptKey: a fid of 128 or more characters fills its buffer without a terminator, and later reads as a C string run past it; the model keeps the first 128 characters.
- LegacyPath.FetchKeysBatch: the host's fallback for a response of a single 124-byte packet, which ends in EcallDecryptKey; what happens to the worker when a response of two packets is taken for a release, beyond that the fetch fails. Nonces and ephemeral secrets are arguments.
- LegacyPath.EncryptKeyCiphertext: the reversal of the shared secret in the client's library undoes the byte order of its curve arithmetic; the model has one byte order for secrets.
- Sha2Abc.KnownAnswer: the other published answers.
- WorkerEnclave.Worker.EcallRunEncryptedWasm: the KEM variant differs only after the hand-over, and output capture, execution, result encryption and traces follow it.
- Delivery.EncryptKeyEnvelope: pairing, hashing and serialisation of the shared value are one foreign function on each side, which agree by a named law.
- Ecdsa.Sign: random numbers are a given sequence of values below n, and the hash of the message is a given residue. The base point's multiples are plain multiples instead of a window table. That mirrored points share their first coordinate is a hypothesis on the group.
- Der.Save: the old serialisation mode and the formats of public keys.
- PaddedModule.DeterministicPadding: the hash of domain, target and counter is one uninterpreted function of the counter.
- The other mcl and cybozu headers, and the reports, result store and receipts around the workloads.
- Pairings, hashing to the curve, sockets, files, the proxy and the schedulers: foreign or plumbing.
- Constant-time behaviour and erasure of secrets.
