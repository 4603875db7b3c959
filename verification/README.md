# Verified models of the vendored cryptography and of the include checker

The Dafny project models the parts of the repository with the most state and arithmetic: the
vendored BLS12-381 library under `external/blst`, the Ed25519 code under `external/ref10`, three
hash implementations, and the rule closure of the include checker in `scripts/lint`. Each module
follows one component; code that works in place is modelled by methods on arrays and classes, and
proved against functions and predicates on values.

| component | files |
|---|---|
| insert-only red-black tree | `ByteStrings`, `RbShape`, `RbBalance`, `RbTree` |
| multi-limb arithmetic | `Limbs`, `LimbRows`, `Congruence`, `Montgomery`, `MontgomeryMul`, `MontgomeryForms`, `ModAdd`, `EuclInverse`, `InnerLoop`, `LimbDivision`, `ZDigits` |
| scalar multiplication | `Groups`, `LittleEndian`, `BoothDigits`, `BoothMult`, `Endomorphisms`, `Slide`, `EdMult` |
| pairings | `Monoids`, `Miller`, `PairingSpec`, `PairingRuns`, `PairingMerge`, `PairingVerdict`, `Pairing` |
| Ed25519 encodings | `BytePacking`, `FeBytes`, `FeFromBytes`, `ScLimbs`, `ScBytes`, `ScReduce` |
| hashes | `Hashing`, `WordBits`, `Sha256Spec`, `Sha256Blst`, `Sha256BlstCtx`, `Sha256Sodium`, `Sha256SodiumState`, `Sha256Constants`, `Sha256`, `Ripemd160` |
| include checker | `DepsChecker` |

`dafny verify dfyconfig.toml` checks everything.

## How the source is read

- Limbs are numbers below B = 2^w for any width w; double-limb values, borrows and masks wrap as in
  the source. An `int32` or `int64` result is checked to fit where it is computed (`I32`, `I64`).
- An `|` of values without a common bit is written as a sum, and a right shift as a floor.
- Curve points are elements of an abelian group and pairing values elements of a commutative
  monoid, both given by their operations; `Miller.Curve` names the line functions. The incomplete
  addition `_add` of `external/blst/ec_ops.h:181-238` is the group operation with the condition that
  its operands are not the same finite point; callers prove it.
- The precomputed tables and the maps `psi` and `sigma` enter by their stated meaning.
- Memory that the source leaves unset is an argument of the constructor, so that nothing can depend
  on it.
- The block function of RIPEMD-160 is a parameter. SHA-256 is complete down to the bits, and its
  constants are proved to be the roots of primes that section 4.2.2 of FIPS 180-4 asks for.
- The multiplications by a scalar in `aggregate.c` are parameters too, so that nothing is asked of the
  points; `BoothMult.MultW` shows when they give multiples, and `PairingMerge.Multiplies` says so.
- Bilinearity of the pairing, and that the final exponentiation is multiplicative, are hypotheses of the
  theorems in `PairingVerdict` that rest on them, and of no others.

## Where code and comments disagree

- `external/blst/no_asm.h:77-80` says that the 256-bit routines handle an arbitrary modulus. The
  carry taken at lines 51-53 has weight B^(n+1) and is added at weight B^n in line 38, so they do not:
  p = B^n - 1 with a = B^n - 3 and b = B^n - 2 goes wrong at every width (`MontgomeryMul.AllOnesModulus`).
  `MontgomeryMul.MulMont` says exactly when the product is right, and `ReducedFits` that it is for
  every modulus up to about B^n*B/(B + 1), hence for both BLS12-381 moduli.
- `external/ref10/fe_tobytes.c:11` argues from |h| <= p, which the stated bounds on the limbs do not give;
  the claim itself is right for those bounds (`FeBytes.QuotientExact`).
- `external/ripemd160/ripemd160.c:327` calls the length big-endian; the code writes it little-endian, and
  so does the model.
- A pair with a point at infinity is special only when it is alone in its batch
  (`external/blst/pairing.c:232-240`), so that the accumulated product depends on the batches. Keys at
  infinity are refused; a scaled key or hash at infinity is not, and a scalar of 0 gives one
  (`PairingMerge.ScalarZero`). The theorems on runs name what is left out, and hold for all runs.
- The comment of `ge_double_scalarmult_vartime` gives no bound on its scalars. With the top bit set a
  carry can leave the 256 digits, and the scalar then counts 2^256 less (`Slide.FiveTopBits`);
  `Slide.Leaves` says when.

## Model

| member | source | states |
|---|---|---|
| `ByteStrings.BytesCompare` | external/blst/rb_tree.c:27-38 | The sign of the result is the lexicographic order of the two byte strings, shorter prefixes first; zero exactly for equal strings. |
| `ByteStrings.LtTotal` | external/blst/rb_tree.c:27-38 | The order used for keys is total. |
| `ByteStrings.LtTransitive` | external/blst/rb_tree.c:27-38 | The order used for keys is transitive. |
| `RbTree.UniqTree.constructor` | external/blst/rb_tree.c:138-142 | An initialised tree is valid and holds nothing. |
| `RbTree.UniqTree.Insert` | external/blst/rb_tree.c:45-129 | Keeps the whole invariant (shape without sharing, key order, black root, no red node under a red one, equal black counts); the contents become old plus the key; the answer is 1 exactly when the key was absent; otherwise no node and no link changes. |
| `RbTree.UniqTree.Walk` | external/blst/rb_tree.c:52-61 | Finds the key or ends at the empty place where it belongs, having recorded the path on the two stacks without running past 64 entries. |
| `RbTree.UniqTree.Place` | external/blst/rb_tree.c:63-74 | The new red leaf at the end of the walk keeps order and black counts; only its colour may clash with its parent. |
| `RbTree.UniqTree.Rebalance` | external/blst/rb_tree.c:76-124 | From a tree with one possible red-red clash to a balanced one with the same keys in the same order. |
| `RbTree.UniqTree.BalanceStep` | external/blst/rb_tree.c:77-123 | One turn of the loop either settles the tree or moves the clash two levels up, in-order sequence unchanged. |
| `RbTree.UniqTree.RotateUp` | external/blst/rb_tree.c:88-122 | One or two rotations and the graft settle the tree; in-order sequence and keys unchanged. |
| `RbTree.UniqTree.RecolourUp` | external/blst/rb_tree.c:82-86 | Recolouring parent, uncle and grandparent keeps black counts and moves the red node up two levels. |
| `RbTree.InnerCase` | external/blst/rb_tree.c:88-115 | The bent case: after both rotations the subtree is red-black, linked into the pool, and has the same in-order sequence. |
| `RbTree.OuterCase` | external/blst/rb_tree.c:104-115 | The straight case: the same after one rotation. |
| `RbTree.WalkFits` | external/blst/rb_tree.c:47-61 | Below 2^32 nodes a walk that stands on a node has recorded fewer than 64 entries. |
| `RbBalance.DepthOfSize` | external/blst/rb_tree.c:47-61 | A red-black tree of fewer than 2^m nodes has no path of more than 2*m nodes. |
| `RbTree.UniqRun` | external/blst/rb_tree.c:138-145 | For every sequence of messages with fewer than 2^32 distinct ones stored, the answer is 1 exactly at first occurrences. |
| `MontgomeryMul.MulMont` | external/blst/no_asm.h:15-66 | For every limb count and every odd modulus the result is below p; for reduced operands it is a*b/B^n modulo p if and only if no row needs more than n + 1 limbs, which is told from the operands. In and out may overlap. |
| `MontgomeryMul.MontRows` | external/blst/no_asm.h:30-54 | What the rows accumulate for any modulus, and exactly what the carries put one limb too low cost. |
| `MontgomeryMul.LossShows` | external/blst/no_asm.h:36-53 | Such a loss is never a multiple of p: one misplaced carry spoils the result. |
| `MontgomeryMul.PartialMeans` | external/blst/no_asm.h:30-54 | The accumulator over the integers after j rows: a*b[..j] plus less than B^j multiples of p, over B^j. |
| `MontgomeryMul.FitsWhenSmall` | external/blst/no_asm.h:15-66 | No row overflows when B*a + p <= B^(n+1). |
| `MontgomeryMul.ReducedFits` | external/blst/no_asm.h:15-66 | For reduced operands (B + 1)*p <= B^(n+1) + B suffices; the top bit of p may be set. |
| `MontgomeryMul.AllOnesOverflow` | external/blst/no_asm.h:77-80 | The modulus B^n - 1 with operands B^n - 3 and B^n - 2 overflows in the second row, for every B >= 8 and n >= 2. |
| `MontgomeryMul.AllOnesModulus` | external/blst/no_asm.h:77-80 | mul_mont_n on these operands is wrong, for every limb width from three bits and every length from two limbs, 64-bit limbs and 256 bits among them. |
| `Montgomery.ReduceRow` | external/blst/no_asm.h:31-40 | One reduction row divides the accumulator plus a multiple of p exactly by B, the carry in and out included. |
| `Montgomery.AddRow` | external/blst/no_asm.h:46-53 | One product row; its carry out has weight B^(n+1). |
| `Montgomery.AccumulatedBound` | external/blst/no_asm.h:30-54 | A reduced accumulator stays below a + p, which is why no carry leaves a row. |
| `Montgomery.FinalSubtract` | external/blst/no_asm.h:56-65 | The masked choice is the subtraction of p exactly when it is due. |
| `MontgomeryForms.FromMont` | external/blst/no_asm.h:289-320 | The result is below p and times B^n congruent to a, for every a of n limbs. |
| `MontgomeryForms.ThereAndBack` | external/blst/no_asm.h:15-66 | Multiplying by B^(2n) mod p and converting back gives the same limbs, where no row overflows. |
| `MontgomeryForms.RoomyFits` | external/blst/no_asm.h:15-66 | With a + p <= B^n, as for reduced a and a clear top bit of p, no row overflows. |
| `MontgomeryForms.RedcMont` | external/blst/no_asm.h:330-367 | The reduction of a double-length number whose upper half is below p. |
| `MontgomeryForms.MulMontNonred` | external/blst/no_asm.h:577-615 | Without the last subtraction the result is below 2*p and congruent. |
| `MontgomeryForms.NonredRow` | external/blst/no_asm.h:591-601 | The row that drops the carry loses nothing but the named multiple of B^n. |
| `MontgomeryForms.SqrNMulMont` | external/blst/no_asm.h:617-625 | For operands below 2*p the result is below p and, times R^(2^count), congruent to a^(2^count)*b modulo p, where R = B^n; the squarings in between stay below 2*p. |
| `Montgomery.MontInverse` | external/blst/no_asm.h:15-66 | B^n is invertible modulo p whenever n0 exists. |
| `ModAdd.AddMod` | external/blst/no_asm.h:88-111 | (a + b) mod p for reduced operands, also where the sum overflows the limbs. |
| `ModAdd.LshiftMod` | external/blst/no_asm.h:201-228 | a*2^count mod p. |
| `ModAdd.AddThenSub` | external/blst/no_asm.h:88-141 | Modular addition and subtraction undo each other. |
| `EuclInverse.SubMod` | external/blst/no_asm.h:121-141 | The difference modulo p of two reduced numbers. |
| `EuclInverse.RshiftMod` | external/blst/no_asm.h:377-401 | The result is reduced and times 2^count congruent to a. |
| `EuclInverse.RemovePowersOf2` | external/blst/no_asm.h:418-438 | u becomes odd by an exact power of two, x is divided by the same power modulo p. |
| `EuclInverse.Loop` | external/blst/no_asm.h:459-480 | Terminates; x*a = u*one and y*a = v*one modulo p hold throughout, and the common divisors of u and v are those of a and p. |
| `EuclInverse.Inverse` | external/blst/no_asm.h:440-484 | For every odd p and nonzero a: out is reduced and out*a is congruent to gcd(a, p)*one, which is one itself when a and p are coprime. |
| `EuclInverse.CoprimeInverse` | external/blst/no_asm.h:440-484 | For a coprime to p this is out*a congruent to one. |
| `EuclInverse.SameAfterHalving` | external/blst/no_asm.h:418-438 | Removing twos keeps the common divisors with an odd number. |
| `InnerLoop.Loop` | external/blst/no_asm.h:767-821 | The limbs hold, in two's complement, the signed factors of n turns over the integers, for any n. |
| `InnerLoop.TurnsRows` | external/blst/no_asm.h:767-821 | For odd b, after n turns f0*a + g0*b = a_n*2^n and f1*a + g1*b = b_n*2^n, |f| + |g| at most 2^n in each row, b_n odd. |
| `InnerLoop.TurnsFit` | external/blst/no_asm.h:767-821 | Up to w - 2 turns no factor exceeds a quarter of the limb range. |
| `InnerLoop.TurnsDivisors` | external/blst/no_asm.h:767-821 | The turns keep the common divisors of the two numbers. |
| `InnerLoop.TurnsShrink` | external/blst/no_asm.h:777-815 | The product of the two numbers after n turns, times 2^n, is at most that before: every turn takes off a bit. |
| `InnerLoop.TurnsEnd` | external/blst/no_asm.h:767-821 | For odd b, with as many turns as a*b has bits, a has become 0 and b their greatest common divisor. |
| `InnerLoop.TurnNumbers` | external/blst/no_asm.h:777-815 | The masked subtraction, exchange and halving of the two-limb numbers. |
| `InnerLoop.TurnFactors` | external/blst/no_asm.h:798-812 | The same turn on the factors, modulo the limb. |
| `LimbDivision.Div3Limbs` | external/blst/no_asm.h:981-1018 | The shift-and-subtract estimate is the quotient digit of the two top limbs, or the all-ones limb when the digit would not fit. |
| `LimbDivision.DigitOrOneMore` | external/blst/no_asm.h:981-1018 | Whatever the next limb is, the estimate is the true quotient or one more. |
| `LimbDivision.QuotRemN` | external/blst/no_asm.h:1024-1056 | From such an estimate, exact remainder and exact quotient, in place. |
| `ZDigits.DivByZz` | external/blst/vect.c:144-161 | Quotient and remainder by z^2, in place. |
| `ZDigits.DivByZ` | external/blst/vect.c:163-176 | Quotient and remainder by |z|, in place. |
| `ZDigits.RadixZ` | external/blst/e2.c:461-478 | div_by_zz and two div_by_z split every number below z^4 into its four digits in radix |z|, each below |z|. |
| `ZDigits.OrderFromZ` | external/blst/consts.c:28-31 | The group order is z^4 - z^2 + 1, so that every scalar below it has four digits. |
| `BoothDigits.WindowOfScalar` | external/blst/ec_mult.h:12-26 | The bits that get_wval delivers are those of the scalar at that offset, also where fewer bytes than bits remain. |
| `BoothDigits.EncodeMeaning` | external/blst/ec_mult.h:28-47 | The encoded window is the magnitude and sign of the signed digit, at most half the radix. |
| `BoothDigits.RecodeStep` | external/blst/ec_mult.h:28-47 | The signed digits add up: each rounded prefix is the one above times the radix plus the digit. |
| `BoothMult.Precompute` | external/blst/ec_mult.h:66-75 | The table holds the multiples 1 to 2^(SZ-1), and every incomplete addition meets its condition. |
| `BoothMult.GatherBooth` | external/blst/ec_mult.h:49-64 | Looks up the multiple by the signed digit of a window. |
| `BoothMult.WindowValue` | external/blst/ec_mult.h:12-26 | A window with the bit below it, the lowest one shifted in. |
| `BoothMult.WindowAddOk` | external/blst/ec_mult.h:132-169 | For a scalar below the order, the incomplete addition is never asked to add a finite point to itself. |
| `BoothMult.MultW` | external/blst/ec_mult.h:132-169 | The multiple of the point by the scalar, for every scalar below the order. |
| `BoothMult.MultsW` | external/blst/ec_mult.h:77-130 | The sum of all multiples, in any abelian group. |
| `Endomorphisms.GlsScalars` | external/blst/e2.c:461-494 | The four scalars are the digits of SK in radix |z|. |
| `Endomorphisms.GlsSum` | external/blst/e2.c:479-492 | Digits times images of the point with alternating signs give the whole multiple, when psi acts as z. |
| `Endomorphisms.MultGls` | external/blst/e2.c:461-494 | SK times the point for every SK below z^4. |
| `Endomorphisms.GlvScalars` | external/blst/e1.c:390-403 | Quotient and remainder of SK by z^2. |
| `Endomorphisms.GlvSum` | external/blst/e1.c:390-417 | The two-term sum, negated and mapped twice by sigma, is the whole multiple, when sigma^2 acts as -z^2 and sigma^3 is the identity. |
| `Endomorphisms.MultGlv` | external/blst/e1.c:390-417 | SK times the point for every SK below z^4. |
| `Slide.Recode` | external/ref10/ge_double_scalarmult.c:3-33 | The digits keep the value but for 2^256 times what leaves the top, which is told from the scalar; nonzero ones are odd, within 15, and at least five places apart. |
| `Slide.LostIsLeaves` | external/ref10/ge_double_scalarmult.c:11-31 | Digits of that kind determine the carry past index 255. |
| `Slide.LeavesNothing` | external/ref10/ge_double_scalarmult.c:11-31 | No carry leaves a scalar whose top bit is clear. |
| `Slide.FiveTopBits` | external/ref10/ge_double_scalarmult.c:20-26 | A carry leaves the scalar that has its five top bits set and all others clear. |
| `Slide.SlideAt` | external/ref10/ge_double_scalarmult.c:11-31 | One position: the window is absorbed into an odd digit, the value kept. |
| `EdMult.OddMultiples` | external/ref10/ge_double_scalarmult.c:57-67 | The table of odd multiples 1 to 15. |
| `EdMult.DoubleScalarMult` | external/ref10/ge_double_scalarmult.c:46-96 | a*A + b*B for scalars below 2^255; for any scalars, each less 2^256 exactly when a carry leaves its recoding. |
| `EdMult.Radix16` | external/ref10/ge_scalarmult_base.c:73-88 | 64 digits with the value of a, each from -8 to 8 when a[31] <= 127. |
| `EdMult.SelectMultiple` | external/ref10/ge_scalarmult_base.c:34-55 | The table entry for a digit and its sign. |
| `EdMult.ScalarMultBase` | external/ref10/ge_scalarmult_base.c:64-105 | a*B by the two passes over odd and even digits. |
| `Miller.StartDblN` | external/blst/pairing.c:181-197 | The first step leaves the product of the single starts. |
| `Miller.AddNDblN` | external/blst/pairing.c:199-218 | One addition and k doublings of all points; the running value stays the product of the single values. |
| `Miller.MillerLoopN` | external/blst/pairing.c:220-260 | For any n pairs the product of the single-pair loops, each the Miller recursion over the binary digits of |z| = 0xd201000000010000, conjugated; a lone pair with a point at infinity gives 1. |
| `Miller.PreAddNDbl` | external/blst/pairing.c:262-269 | From the lines on the way to m, those on the way to (m + 1)*2^n in consecutive slots, and the point there. |
| `Miller.PrecomputeLines` | external/blst/pairing.c:271-284 | The 68 slots hold the lines on the way to |z|, in the order of the recursion. |
| `Miller.PostAddNDbl` | external/blst/pairing.c:286-310 | Reading the lines from m to (m + 1)*2^n takes the recursion there. |
| `Miller.MillerLoopLines` | external/blst/pairing.c:312-334 | Over precomputed lines, the single-pair loop: the recursion over the binary digits of |z|, conjugated. |
| `Miller.Multiples` | external/blst/pairing.c:252-258 | The schedule leads through 2, 0xc, 0x68, 0xd200 and 0xd20100000000 to |z|. |
| `Miller.AlongIsSingle` | external/blst/pairing.c:252-259 | The additions and doublings of the schedule are the recursion over the binary digits of |z|. |
| `Miller.PointIsMultiple` | external/blst/pairing.c:220-260 | Where the point parts of line_dbl and line_add double and add in a group, the recursion to n ends at n times the point. |
| `Miller.MillerLaw` | external/blst/pairing.c:181-260 | Miller's theorem: where a line has the divisor of the points it adds less the point it reaches, the value at n has n times that of the point less that of its n-th multiple. |
| `Miller.SingleLaw` | external/blst/pairing.c:252-259 | With conjugates as inverses, the whole loop has the divisor that goes with z, which is negative. |
| `Miller.OffsetsFit` | external/blst/pairing.c:278-283 | The offsets of the blocks are the numbers of lines so far, 68 in all. |
| `Pairing.Context.constructor` | external/blst/aggregate.c:66-73 | A fresh context is the initial one whatever memory held before. |
| `Pairing.Context.AggregatePkInG2` | external/blst/aggregate.c:90-181 | Answers and changes the context exactly as one step of the specification, on every path; both type flags are never set together. |
| `Pairing.Context.AggregatePkInG1` | external/blst/aggregate.c:232-330 | The same with the groups exchanged. |
| `Pairing.Context.CommitPairs` | external/blst/aggregate.c:381-394 | Moves the value of the buffer into GT, if there is any. |
| `Pairing.Context.Merge` | external/blst/aggregate.c:399-448 | One merge step, also when both contexts are the same object. |
| `Pairing.Context.FinalVerify` | external/blst/aggregate.c:450-488 | The verdict of the specification, whether the value of the signature is supplied or computed. |
| `PairingRuns.RunMeans` | external/blst/aggregate.c:90-448 | After every run, failed calls included: the mode is the kind of the first aggregation; GT times the Miller value of the buffer, times the pairs that lone commits leave out, is the product over all accepted pairs; the signature is the sum of all accepted ones. |
| `PairingRuns.ProductExact` | external/blst/aggregate.c:167-177 | It is the product over all accepted pairs exactly when what was left out is absorbed, and always when no commit meets a buffer of just one pair with a point at infinity. |
| `PairingRuns.RunAnswers` | external/blst/aggregate.c:90-330 | The answer of any call, from the calls before it alone: type mismatch, point not in group, infinite key, or success. |
| `PairingRuns.StepMeaning` | external/blst/aggregate.c:90-394 | What any call adds to product, buffer and sum. |
| `PairingSpec.FlushKeeps` | external/blst/aggregate.c:167-177 | Emptying the buffer into GT keeps the product, but for a lone pair with a point at infinity. |
| `PairingSpec.StepKeepsOk` | external/blst/aggregate.c:90-394 | Every call keeps fewer than eight buffered pairs and each kind of signature in its mode. |
| `PairingMerge.MergeMeans` | external/blst/aggregate.c:399-448 | A merged context means both runs together. |
| `PairingMerge.MergeRefuses` | external/blst/aggregate.c:399-410 | A merge fails exactly for different types or uncommitted pairs. |
| `PairingMerge.MergeKeeps` | external/blst/aggregate.c:399-448 | The one error is a type mismatch, after which the context is as it was; a merge keeps mode of hashing and tag, and an unused context becomes the other. |
| `PairingMerge.AfterMerge` | external/blst/aggregate.c:399-448 | A call after a merge adds to product and sum what it would add to the two runs made one after the other. |
| `PairingMerge.VerifyBySum` | external/blst/aggregate.c:450-488 | The verdict depends on the product and the sum alone; no signature counts as the point at infinity. |
| `PairingMerge.VerifyGiven` | external/blst/aggregate.c:452-488 | With a supplied value v, for every v: there is a committed pair and final_exp(conj(v)*GT) is 1; pairs still buffered do not count. |
| `PairingMerge.VerifySupplied` | external/blst/aggregate.c:457-484 | Supplying the Miller value of the summed signature gives the verdict that computing it gives. |
| `PairingVerdict.VerdictCompares` | external/blst/aggregate.c:482-488 | Where final_exp is multiplicative and turns conjugates into inverses, the verdict compares final_exp of the signature value with that of the product. |
| `PairingVerdict.BatchEquation` | external/blst/aggregate.c:450-488 | The verdict on a committed run: some pair, and the pairing of the sum of signatures with the generator equals the product of the pairings of all pairs. |
| `PairingVerdict.AcceptedIffSigned` | external/blst/aggregate.c:450-488 | Over whole runs, in either mode, with any scalars, order and commits: accepted if some call has a pair and the signatures add up to the sum of scalar*sk*hash over the pairs, and, where the pairing is non-degenerate, only then. The pairing is taken to be bilinear, the keys multiples of the generator, and no scaled key or hash at infinity. |
| `PairingVerdict.SuppliedIffSigned` | external/blst/aggregate.c:18-36 | The same for one aggregated signature supplied as its Miller value. |
| `PairingVerdict.OnePairs` | external/blst/aggregate.c:90-330 | The pairing of the pair of one call is that of scalar*sk*hash with the generator, in either group. |
| `PairingVerdict.SignedPays` | external/blst/aggregate.c:109-137 | A call with a good key that carries sk times its hash adds exactly scalar*sk*hash. |
| `PairingVerdict.ScaledSignatures` | external/blst/aggregate.c:109-137 | The signature of a run is the sum of scalar times signature over the calls that passed their check; no scalar counts as 1. |
| `PairingVerdict.ScaledPair` | external/blst/aggregate.c:150-165 | A pair carries the multiple of its hash by the scalar, or of its key where the keys are in G1. |
| `PairingMerge.AnyPartition` | external/blst/aggregate.c:19-37 | Merging the committed contexts of any partition of the calls, in any order, gives the sum of one context that made them all, and its product but for what lone commits left out on either side; where the GTs agree so does the verdict. |
| `PairingMerge.CleanPartition` | external/blst/aggregate.c:19-37 | GT and verdict agree when no commit meets a buffer of just one pair with a point at infinity. |
| `PairingMerge.ScalarZero` | external/blst/aggregate.c:156-177 | A call with scalar 0 is accepted and contributes a pair with a point at infinity. |
| `PairingMerge.InfinitePair` | external/blst/aggregate.c:167-177 | Such a pair counts as 1 when it is committed alone, and as the line functions have it when committed with another. |
| `ScLimbs.FoldedValue` | external/ref10/sc_reduce.c:79-85 | A fold changes the value by a multiple of l. |
| `ScLimbs.Fold` | external/ref10/sc_reduce.c:79-85 | The fold in place, without overflow, and the new bounds. |
| `ScLimbs.RoundCarry` | external/ref10/sc_reduce.c:127-132 | A rounded carry keeps the value and leaves the limb within 2^20. |
| `ScLimbs.FloorCarry` | external/ref10/sc_reduce.c:210-221 | A floor carry keeps the value and leaves the limb within 0 and 2^21. |
| `ScBytes.LoadedValue` | external/ref10/sc_reduce.c:37-60 | The 24 limbs spell the 64 bytes. |
| `ScReduce.Shrink` | external/ref10/sc_reduce.c:79-200 | Twelve folds and the rounded carries bring the number down to twelve limbs and a small thirteenth, modulo l, in 64 bits. |
| `ScReduce.SmallValue` | external/ref10/sc_reduce.c:202-208 | Before the floor carries the value lies strictly between -2^252 and 2^252. |
| `ScReduce.TopLimb` | external/ref10/sc_reduce.c:210-229 | The limb folded last is -1 or 0, and the fold brings the value between 0 and l. |
| `ScReduce.Settle` | external/ref10/sc_reduce.c:202-241 | The last two folds and carries end at the remainder. |
| `ScReduce.Store` | external/ref10/sc_reduce.c:243-274 | The 32 bytes spell the twelve limbs; bytes 32 to 63 are left alone. |
| `ScReduce.ScReduce` | external/ref10/sc_reduce.c:35-275 | For all 64 bytes: the first 32 become the number modulo l. |
| `FeBytes.Quotient` | external/ref10/fe_tobytes.c:52-62 | The nested floors are one floor of the value plus a small correction. |
| `FeBytes.QuotientExact` | external/ref10/fe_tobytes.c:3-26 | The correction makes it the quotient by 2^255 - 19, for all of the stated bounds. |
| `FeBytes.Normalise` | external/ref10/fe_tobytes.c:64-85 | The carries leave limbs in range that spell the remainder. |
| `FeBytes.StoredValue` | external/ref10/fe_tobytes.c:87-118 | The 32 bytes spell the limbs. |
| `FeBytes.FeToBytes` | external/ref10/fe_tobytes.c:28-119 | Writes the representative modulo 2^255 - 19 between 0 and 2^255 - 20. |
| `FeFromBytes.LoadedValue` | external/ref10/fe_frombytes.c:30-39 | The loaded limbs spell the bytes without the top bit. |
| `FeFromBytes.RoundCarries` | external/ref10/fe_frombytes.c:51-61 | The ten carries keep the value modulo 2^255 - 19 and end within the bounds of fe_tobytes. |
| `FeFromBytes.FeFromBytes` | external/ref10/fe_frombytes.c:28-73 | The element that the bytes spell, the top bit ignored. |
| `FeFromBytes.DecodeEncode` | external/ref10/fe_frombytes.c:28-73 | Encoding what was decoded gives the bytes back if and only if they were canonical. |
| `FeFromBytes.EncodeDecode` | external/ref10/fe_tobytes.c:28-119 | Decoding what was encoded gives the same element. |
| `FeFromBytes.EncodingUnique` | external/ref10/fe_tobytes.c:28-119 | Encodings are equal exactly for equal elements. |
| `Hashing.BlocksConcat` | external/blst/sha256.h:84-90 | Folding two runs of blocks one after the other is folding them together. |
| `Hashing.PaddedOne` | external/blst/sha256.h:119-137 | Where the length fits, the last block completes the padded message. |
| `Hashing.PaddedTwo` | external/blst/sha256.h:127-137 | Where it does not, two blocks do. |
| `Hashing.PaddingShape` | external/blst/sha256.h:119-137 | The padding is a one bit, zeros and the length, and as short as it can be. |
| `Hashing.LengthSpelled` | external/blst/sha256.h:132-134 | The eight length bytes spell every 64-bit number, most or least significant byte first. |
| `Sha256Spec.PaddedInjective` | external/blst/sha256.h:119-137 | No two messages of fewer than 2^61 bytes are padded alike. |
| `Sha256Spec.RoundsRecur` | external/blst/no_asm.h:1123-1160 | The rounds are two recurrences of order four; the eight registers are the last four terms of each. |
| `Sha256Blst.NextWord` | external/blst/no_asm.h:1143-1149 | The in-place update of the rolling window is the next word of the schedule. |
| `Sha256Blst.BlockDataOrder` | external/blst/no_asm.h:1089-1171 | The rolling form folds the block function of FIPS 180-4 over all blocks. |
| `Sha256BlstCtx.Ctx.Update` | external/blst/sha256.h:60-94 | The message absorbed grows by the input, however it is cut. |
| `Sha256BlstCtx.Ctx.Final` | external/blst/sha256.h:119-137 | The digest of the whole padded message. |
| `Sha256Sodium.Rotated` | external/sha256/hash_sha256_cp.c:83-91 | Turning the roles of the eight cells is moving the registers. |
| `Sha256Sodium.Transform` | external/sha256/hash_sha256_cp.c:97-145 | The form with a full schedule and turning cells is the same block function. |
| `Sha256SodiumState.State.Update` | external/sha256/hash_sha256_cp.c:189-228 | As for the other context, with a counter of bits. |
| `Sha256SodiumState.State.Final` | external/sha256/hash_sha256_cp.c:153-173 | The digest of the whole padded message. |
| `WordBits.ChSame` | external/sha256/hash_sha256_cp.c:74-74 | The short form of Ch is Ch. |
| `WordBits.MajSame` | external/sha256/hash_sha256_cp.c:75-75 | The short form of Maj is Maj. |
| `WordBits.RotrBit` | external/blst/no_asm.h:1081-1081 | Bit i of a word turned right by n is bit (i + n) mod 32, for every n. |
| `WordBits.Sum0Bits` | external/blst/no_asm.h:1082-1082 | Bit i of Sigma0 is the parity of the bits 2, 13 and 22 further on, counted around. |
| `WordBits.Sum1Bits` | external/blst/no_asm.h:1083-1083 | The same of Sigma1, with 6, 11 and 25. |
| `WordBits.Mix0Bits` | external/blst/no_asm.h:1084-1084 | Bit i of sigma0 is the parity of the bits 7 and 18 further on, counted around, and the one 3 further on, if there is one. |
| `WordBits.Mix1Bits` | external/blst/no_asm.h:1085-1085 | The same of sigma1, with 17, 19 and 10. |
| `WordBits.ChoiceBits` | external/blst/no_asm.h:1086-1087 | Each bit of Ch is chosen by x between y and z, and each bit of Maj is the one that two of three have. |
| `Sha256Constants.KFromPrimes` | external/blst/no_asm.h:1092-1109 | For each t the round constant is the first 32 bits of the fraction of the cube root of the t-th prime. |
| `Sha256Constants.InitialFromPrimes` | external/blst/sha256.h:40-50 | The initial state is the same of the square roots of the first eight primes. |
| `Sha256.WordThereAndBack` | external/blst/sha256.h:96-99 | Words to bytes, most significant first, and back. |
| `Sha256.BeWordsAt` | external/blst/sha256.h:101-117 | Every word of the digest stands in its place. |
| `Sha256.HashWithBlst` | external/blst/sha256.h:52-137 | For any split of any message: the SHA-256 digest. |
| `Sha256.HashWithSodium` | external/sha256/hash_sha256_cp.c:175-241 | For any split of any message: the same digest. |
| `Ripemd160.Ctx.Add` | external/ripemd160/ripemd160.c:271-303 | The message absorbed grows by the input. |
| `Ripemd160.Ctx.Done` | external/ripemd160/ripemd160.c:317-332 | The block function folded over the padded message, which goes through add itself. |
| `Ripemd160.Hash` | external/ripemd160/ripemd160.c:317-344 | For any split of any message, the bytes of the resulting words. |
| `Ripemd160.LeWordsAt` | external/ripemd160/ripemd160.c:329-330 | Every word of the result stands in its place. |
| `Ripemd160.PaddedInjective` | external/ripemd160/ripemd160.c:323-328 | No two messages of fewer than 2^61 bytes are padded alike. |
| `DepsChecker.ProcessRules` | scripts/lint/DepsChecker.py:94-116 | An error exactly when the rules have a cycle, self-loops included; otherwise each source with exactly the targets it reaches, in whatever order items come. |
| `DepsChecker.AddRules` | scripts/lint/DepsChecker.py:76-87 | The dependencies and all that closed dependencies reach. |
| `DepsChecker.ReachesByDep` | scripts/lint/DepsChecker.py:71-87 | For a self-contained source, reaching is by a dependency or by what it reaches. |
| `DepsChecker.NoneSelfContained` | scripts/lint/DepsChecker.py:100-116 | If no pending source is self-contained there is a cycle. |
| `DepsChecker.Flatten` | scripts/lint/DepsChecker.py:118-123 | One pair for each source and target, none twice. |

## Left out

- UniqRun: the next message may be tested while fewer than 2^32 distinct ones are stored, because the two stacks are proved to suffice below 2^32 nodes.
- ScalarMultBase: asks a[31] <= 127 as the source's comment does; beyond it the top digit would leave the table.
- RadixZ: 64-bit limbs only.
- Done: the block function of RIPEMD-160 is a parameter and is not modelled.
- Full correctness of `ct_inverse_mod_n`: only the invariant of its inner loop; its iteration count rests on an outside analysis.
- Curve formulas (`ec_ops.h`), the field tower (`fp12_tower.c`), isogeny maps and the final exponentiation: represented by group, monoid and function parameters.
- `expand_message_xmd`, serialisation of points, signing and key derivation of `external/blst`.
- Point arithmetic of `external/ref10` and the other scalar routines there.
- Keccak, assembly and CUDA variants, constant-time behaviour and scrubbing of memory.
- Parsing of rule files and of headers, defines and matching by regular expressions in `scripts/lint`.
- The extensions, tools and scripts of the server, which register or call code outside these components.
