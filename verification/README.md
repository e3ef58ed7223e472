# Hierarchical threshold signing: a verified model

This project models the hierarchical threshold (HTSS) engine of DKGKit and the policies, Taproot
tweaks, message queues and vault service around it, and proves what they promise.

**Engine.** Birkhoff interpolation over an in-place Gauss-Jordan solver; distributed key generation,
dealing and resharing; nonce aggregation, weighted signature shares and their aggregation into a
BIP340 signature, for the group key itself and for a tweaked Taproot output key.

**Around it.** Threshold, hierarchical and grouped policies with their `u16` bounds; the BIP32/BIP341
and silent-payment tweaks; the memory queue and the envelope queue; the SDK coordinator; the vault's
whole key generation and signing runs; the single-use nonce slot.

## Main results

1. The solver returns a solution exactly when the matrix has only the trivial kernel; the solution is
   then the unique one, and a singular error comes with a kernel vector (`GaussJordan.SolveCorrect`).
2. Coefficients exist exactly when no non-zero polynomial of degree below n is observed as zero
   (`Birkhoff.SolvableIffUnisolvent`), and then weigh any observations to f(0)
   (`Birkhoff.Interpolation`).
3. The rank rule is necessary (`Birkhoff.PolyaNecessary`) and **not** sufficient
   (`RankGap.RankRuleNotSufficient`). Two exact results decide: `Blocks.Decomposition` (a set with
   exactly b points of order below b is solvable if and only if its two blocks are) and
   `Extensions.OneMore` (one point more than a solvable set is solvable if and only if it does not
   observe as zero the one polynomial that vanishes on that set). So tight rank patterns are always
   solvable (`Blocks.TightSolvable`, `RankGap.TightQuorum`); values with one derivative of any order
   and two values with any number of slopes have closed conditions (`Extensions.ValuesAndOneExact`,
   `Extensions.TwoValuesIntegral`); up to three signers the answer is complete
   (`RankGap.SmallSetsExact`); and every minimal quorum of the vault's own policy, which is not
   tight, can sign (`VaultQuorums.VaultQuorumsSolvable`).
4. Key generation is sound against arbitrary packages (`Dkg.FinalizeExact`,
   `KeySets.FinalizedLieOnOne`, `Dkg.WrongShareRejected`).
5. Honest signers always produce an accepted signature, in any order of signers, nonces and shares
   (`HonestSigning.HonestAggregate`), also under every Taproot child address
   (`Taproot.ChildAddressSpend`); aggregation accepts exactly the right sums
   (`Signing.AggregateExact`).
6. Resharing any key set succeeds exactly when the shares reconstruct its group key
   (`KeySets.ReshareExact`); chains never change the key (`KeySets.ReshareChainKeepsKey`,
   `KeySets.ReshareChainSound`).
7. A vault run, the first or a later one, succeeds exactly when the constant terms do not cancel and
   no other key is stored (`Vault.VaultService.RunHtssDkg`), and a signing run exactly when policy, state, session name,
   solvability and nonces allow it (`Vault.VaultService.SignAuthorization`).
8. Over a whole run the envelope queue agrees with the memory queue if and only if no drain follows a
   malformed message (`Transport.NostrRefinesMemory`); the memory queue conserves messages
   (`Transport.Conservation`); the event of every call on a signing session follows from the calls
   alone (`NonceSlot.EventExact`), and no nonce is used twice (`NonceSlot.NonceSingleUse`).

## How things are represented

- Scalars are elements of an arbitrary field in which 1..131070 are non-zero. `SecpScalars` derives
  the field laws for integers modulo the secp256k1 group order from that order being prime.
- A curve point is its discrete logarithm; zero stands for the point at infinity and for bytes that do
  not decode to a point. Parity is an arbitrary predicate that tells p and -p apart for p non-zero; an
  x-only key is its even lift. Challenge, HMAC and tap hash are arbitrary functions, so every result
  holds for whatever they return.
- Random scalars are parameters, non-zero where the program draws non-zero ones. Codecs are assumed to
  decode what they encode. Error texts are reduced to reasons, and each function returns the first
  error the program would return.
- Imperative code is a method with loops, or a class, proved equal to a specification function; the
  theorems are lemmas about those functions.

## Where the code differs from what a reader may expect

- The rank rule at crates/dkgkit-frost/src/lib.rs:583-592 looks only at the first `threshold` sorted
  ranks and does not guarantee a solvable system: ids 1 and 3 of rank 0 with id 2 of rank 1 pass it at
  threshold 3 and cannot sign.
- A grouped policy does not imply its derived rank rule, unless for each declared rank r the required
  counts of lower ranks add up to at least r (`SignerSets.GroupedVersusRankRule`). Members 1 of rank 0
  and 2 of rank 5, both required, are a policy whose only quorum the derived validator rejects
  (`SignerSets.GroupedMayBreakRule`).
- `taproot_child_key_tweak` fails for an address that exists when the two BIP32 tweaks cancel, or when
  their signed sum cancels the tap tweak. `Taproot.ChildKeyTweakExact` gives the exact condition, and
  `Taproot.CancellingTweaks` and `Taproot.CancellingTapTweak` show both failures at hash functions
  chosen for the purpose; no input of the real HMAC-SHA512 or tap hash that does so is known.
- A drain of the envelope queue that meets a malformed event loses the whole queue, because the events
  were already taken out (`Transport.LocalNostrEventTransport.DrainMatching`;
  `Transport.MalformedLosesQueue` loses a good message to a bad one).
- Degrees are cast to `u16`, and the factor range of a basis value starts at `degree - order + 1` in
  `u16`. The model follows a build without overflow checks, where both wrap; a build with checks panics
  instead. Validated signer sets and commitment lists never get there (`Birkhoff.WrappingExact`).

## Model

| member | source | states |
|---|---|---|
| GaussJordan.SolveCorrect | crates/dkgkit-frost/src/lib.rs:1684-1737 | for every square system: solved if and only if the kernel is trivial, then the unique solution; singular only with a non-zero kernel vector |
| GaussJordan.SolveScalarSystem | crates/dkgkit-frost/src/lib.rs:1684-1737 | the in-place elimination on an array computes the specified result for every input, square or not |
| GaussJordan.StepSolutions | crates/dkgkit-frost/src/lib.rs:1701-1733 | swapping, scaling and clearing one column keeps the solution set, both ways |
| GaussJordan.EliminateSolution | crates/dkgkit-frost/src/lib.rs:1695-1736 | from any reduced state, a returned vector is the one and only solution |
| GaussJordan.EliminateKernel | crates/dkgkit-frost/src/lib.rs:1696-1700 | from any reduced state, a singular exit yields a non-zero kernel vector |
| GaussJordan.PivotRow | crates/dkgkit-frost/src/lib.rs:1696-1697 | the pivot search finds the first row from the column down with a non-zero entry |
| GaussJordan.NormalizePivot | crates/dkgkit-frost/src/lib.rs:1701-1716 | the swap and the scaling in place give the normalized matrix and target |
| GaussJordan.ClearColumn | crates/dkgkit-frost/src/lib.rs:1718-1733 | clearing in place, with rows skipped when their factor is zero, equals subtracting the pivot row from all other rows |
| Polynomials.ScalarPow | crates/dkgkit-frost/src/lib.rs:1916-1922 | the loop computes the power |
| Polynomials.DerivativeBasis | crates/dkgkit-frost/src/lib.rs:1652-1664 | for every 16-bit degree the loop computes the basis value, except that X^65535 itself gives zero because the first factor wraps |
| Polynomials.ClosedForm | crates/dkgkit-frost/src/lib.rs:1652-1682 | the derivative value is the r-fold formal derivative evaluated at x |
| Polynomials.BasisZero | crates/dkgkit-frost/src/lib.rs:1652-1664 | at x non-zero a basis value is zero if and only if the order exceeds the degree; the program's is zero also for X^65535 itself |
| Polynomials.ValueAdd | crates/dkgkit-frost/src/lib.rs:1666-1682 | derivative values are additive in the coefficients |
| Polynomials.PadValue | crates/dkgkit-frost/src/lib.rs:1666-1682 | zero coefficients of higher degree do not change a derivative value |
| Birkhoff.BirkhoffInterpolationCoefficients | crates/dkgkit-frost/src/lib.rs:665-693 | for any number of points: building, transposing and solving gives the specified coefficients or error; exact up to 65535 points, always singular beyond 65536 |
| Birkhoff.WrappingExact | crates/dkgkit-frost/src/lib.rs:1638-1650 | the 16-bit casts change nothing up to 65535 points and make every system of more than 65536 points singular |
| Birkhoff.SolvableIffUnisolvent | crates/dkgkit-frost/src/lib.rs:665-693 | coefficients exist if and only if there are points and no non-zero polynomial of degree below n is observed as zero; otherwise the singular error |
| Birkhoff.Interpolation | crates/dkgkit-frost/src/lib.rs:656-693 | the weighted observations of any polynomial of degree below n sum to f(0) |
| Birkhoff.Weights | crates/dkgkit-frost/src/lib.rs:675-692 | the coefficients carry the points' ids and orders and are the only solution of the transposed system |
| Birkhoff.TransposeKernel | crates/dkgkit-frost/src/lib.rs:675-683 | a square matrix has a trivial kernel exactly when its transpose has |
| Birkhoff.PolyaNecessary | crates/dkgkit-frost/src/lib.rs:665-693 | fewer than b points of order below b make the system singular, for all coordinates |
| Birkhoff.LagrangeRefinement | crates/dkgkit-frost/src/lib.rs:665-693 | for distinct non-zero ids of order 0 the solver never fails and each coefficient is the Lagrange product |
| Birkhoff.OrderIndependent | crates/dkgkit-frost/src/lib.rs:665-693 | permuting the points, repeated or not, permutes the coefficients and never changes solvability |
| Birkhoff.RepeatedSingular | crates/dkgkit-frost/src/lib.rs:665-693 | a point listed twice makes the system singular |
| Blocks.Decomposition | crates/dkgkit-frost/src/lib.rs:1638-1650 | where exactly b points have order below b, the set is unisolvent if and only if the low points and the high points, lowered by b, both are |
| Blocks.TightSolvable | crates/dkgkit-frost/src/lib.rs:656-693 | a set in which each order r has exactly r points below it has coefficients, whatever its distinct ids |
| Extensions.OneMore | crates/dkgkit-frost/src/lib.rs:1638-1650 | a solvable set and one point more: solvable if and only if the new point does not observe as zero a polynomial of the next degree that vanishes on the set |
| Extensions.ValuesAndOneExact | crates/dkgkit-frost/src/lib.rs:656-693 | all values but one, and one derivative of any order at m: coefficients exist if and only if that derivative of the values' root polynomial is not zero at m |
| Extensions.TwoValuesExact | crates/dkgkit-frost/src/lib.rs:656-693 | two values and slopes: with any g whose derivative vanishes at the slopes, coefficients exist if and only if g differs at the two values |
| Extensions.TwoValuesIntegral | crates/dkgkit-frost/src/lib.rs:656-693 | the same in closed form, with the integral of the slopes' root polynomial |
| Extensions.OneTwoRestExact | crates/dkgkit-frost/src/lib.rs:640-693 | one signer of rank 0, two of rank 1 and any number of rank 2: coefficients exist if and only if such a g for the rank-2 ids differs at the two rank-1 ids |
| VaultQuorums.VaultQuorumsSolvable | examples/vault-service/src/main.rs:182-203 | every minimal quorum accepted by the 1-2-3 policy over these ids passes the derived rank rule and has coefficients |
| VaultQuorums.VaultConstructed | examples/vault-service/src/main.rs:182-203 | the vault's roster and requirements pass the constructor and are such a policy |
| RankGap.MidpointExact | crates/dkgkit-frost/src/lib.rs:583-592 | two values and one slope are solvable if and only if the slope is not at the midpoint |
| RankGap.SmallSetsExact | crates/dkgkit-frost/src/lib.rs:583-693 | up to three points are solvable if and only if the rank rule holds and there is no midpoint |
| RankGap.RankRuleNotSufficient | crates/dkgkit-frost/src/lib.rs:583-592 | a concrete accepted signer set with a singular system |
| RankGap.TightSigners | crates/dkgkit-frost/src/lib.rs:640-693 | accepted signers whose rank r has exactly r signers below it always have coefficients |
| RankGap.TightQuorum | crates/dkgkit-frost/src/lib.rs:597-693 | under a grouped policy whose lower required counts add up to exactly r for each declared rank r, every minimal accepted quorum passes the derived rank rule and has coefficients |
| Policies.NewThreshold | crates/dkgkit-core/src/lib.rs:76-89 | accepts exactly 1 <= threshold <= participants, with the inputs as config, or names them in the error |
| Policies.NewRankedParticipant | crates/dkgkit-core/src/lib.rs:123-131 | accepts exactly non-zero ids, with the inputs as participant |
| Policies.NewRequirement | crates/dkgkit-core/src/lib.rs:182-196 | accepts exactly 1 <= required <= total, with the inputs as requirement, or names them in the error |
| Policies.NewHierarchical | crates/dkgkit-core/src/lib.rs:139-157 | the seen-set loop accepts exactly 1 <= threshold <= n <= 65535 with distinct ids, and returns its inputs |
| Policies.NewGrouped | crates/dkgkit-core/src/lib.rs:204-256 | accepts exactly non-empty lists with distinct ids and distinct ranks, every declared total the number of participants of that rank and every participant's rank declared, and returns its inputs; first error otherwise |
| Policies.CheckRequirements | crates/dkgkit-core/src/lib.rs:223-241 | accepts exactly distinct ranks whose declared total is the number of participants of that rank |
| Policies.CheckCoverage | crates/dkgkit-core/src/lib.rs:243-250 | accepts exactly when every participant's rank is declared |
| Policies.RankOfExact | crates/dkgkit-core/src/lib.rs:167-172 | a lookup returns a rank if and only if it is the rank of the first participant with the id |
| Policies.CountsPartition | crates/dkgkit-core/src/lib.rs:223-250 | the counts of distinct declared ranks below b partition the list's entries below b |
| Policies.RosterSize | crates/dkgkit-core/src/lib.rs:216-221 | distinct non-zero 16-bit ids: at most 65535 members |
| Policies.GroupedArithmetic | crates/dkgkit-core/src/lib.rs:204-271 | rank totals partition the roster, the 16-bit sum of required counts never wraps and lies in 1..n, and both derived configs exist |
| SignerSets.ValidateSignerSet | crates/dkgkit-frost/src/lib.rs:547-568 | accepts exactly enough distinct ids, none above the participant count; first error otherwise |
| SignerSets.ValidateHierarchicalSignerSet | crates/dkgkit-frost/src/lib.rs:570-595 | lookup, sort and rank loop give the specified result |
| SignerSets.SortedRuleIsCounting | crates/dkgkit-frost/src/lib.rs:582-592 | the rule on sorted ranks is: for each b up to the threshold, at least b signers have rank below b |
| SignerSets.HierarchicalResultExact | crates/dkgkit-frost/src/lib.rs:570-595 | acceptance under any config, constructed or not: a threshold possible for the 16-bit count, enough distinct members in range and the counting form of the rank rule |
| SignerSets.HierarchicalResultMeaning | crates/dkgkit-frost/src/lib.rs:570-595 | acceptance is: enough distinct roster members in range, and the counting form of the rank rule |
| SignerSets.ValidateGroupedSignerSet | crates/dkgkit-frost/src/lib.rs:597-625 | tally and quorum loops give the specified result |
| SignerSets.TallyRanks | crates/dkgkit-frost/src/lib.rs:603-609 | the rank map holds the number of signers of every rank |
| SignerSets.GroupedResultExact | crates/dkgkit-frost/src/lib.rs:597-625 | acceptance under any grouped config: a possible required count, enough distinct members in range, every declared quorum met |
| SignerSets.GroupedResultMeaning | crates/dkgkit-frost/src/lib.rs:597-625 | acceptance is: enough distinct roster members in range, and every declared quorum met |
| SignerSets.GroupedVersusRankRule | crates/dkgkit-frost/src/lib.rs:570-625 | for ids up to n, grouped acceptance implies acceptance by the derived hierarchical validator if and only if for each declared rank r the lower required counts sum to at least r |
| SignerSets.GroupedMayBreakRule | crates/dkgkit-frost/src/lib.rs:570-625 | a constructed policy and a quorum that it accepts and the derived validator rejects |
| SignerSets.SignerPointsMeaning | crates/dkgkit-frost/src/lib.rs:640-654 | points exist exactly for accepted sets and are distinct |
| SignerSets.SignerPointsSize | crates/dkgkit-frost/src/lib.rs:640-654 | under any config, points exist for at most 65535 signers |
| SignerSets.RankRuleNecessary | crates/dkgkit-frost/src/lib.rs:640-693 | a signer set that breaks the rank rule at its own size, above the threshold included, is singular |
| Dkg.Round1 | crates/dkgkit-frost/src/lib.rs:807-831 | succeeds exactly for roster members, with the id and the roster rank |
| Dkg.Round2Exact | crates/dkgkit-frost/src/lib.rs:833-883 | dealing succeeds if and only if the round-1 set is valid and has the dealer's own package and the coefficients are as many as the threshold |
| Dkg.Round1SetResult | crates/dkgkit-frost/src/lib.rs:1739-1782 | accepts exactly one package per roster member with its rank, the right number of commitments, all of them points |
| Dkg.ValidateRound1Set | crates/dkgkit-frost/src/lib.rs:1739-1782 | the seen-set loop gives that result with the first error |
| Dkg.Round2SetResult | crates/dkgkit-frost/src/lib.rs:1784-1822 | accepts exactly one package per roster sender, addressed to the recipient with its rank |
| Dkg.ValidateRound2Set | crates/dkgkit-frost/src/lib.rs:1784-1822 | the seen-set loop gives that result with the first error |
| Dkg.ExpectedPointIsDerivative | crates/dkgkit-frost/src/lib.rs:1840-1849 | for at most 65535 commitments, skipping zero basis terms loses nothing: the expected point is the committed derivative |
| Dkg.VerifyShareExact | crates/dkgkit-frost/src/lib.rs:1824-1858 | for at most 65535 commitments: another sender's commitments are refused, and otherwise a share passes if and only if it is the committed derivative |
| Dkg.VerifyDerivativeShare | crates/dkgkit-frost/src/lib.rs:1824-1858 | the accumulation loop gives the specified verdict |
| Dkg.GroupXOnlyPublicKey | crates/dkgkit-frost/src/lib.rs:1860-1879 | the sum of constant commitments, its x-only form and its parity |
| Dkg.PromisesAddUp | crates/dkgkit-frost/src/lib.rs:901-915 | in any order of senders, the committed derivatives sum to the derivative of the joint polynomial |
| Dkg.ValidSharesSum | crates/dkgkit-frost/src/lib.rs:897-915 | with valid sets the received shares are summed if and only if all match their commitments, and then to the joint polynomial's derivative |
| Dkg.FinalizeExact | crates/dkgkit-frost/src/lib.rs:885-932 | for arbitrary packages: finalizing succeeds if and only if both sets are valid, every share is its committed derivative and the constants do not cancel; the key and share are those of one polynomial fixed by round 1, with even key |
| Dkg.WrongShareRejected | crates/dkgkit-frost/src/lib.rs:901-915 | with valid sets, a share off its commitment is rejected, naming a sender whose share is wrong |
| Dkg.FinalizeHtssDkg | crates/dkgkit-frost/src/lib.rs:885-932 | the map-building and summing loops give the specified result |
| KeySets.FinalizedLieOnOne | crates/dkgkit-frost/src/lib.rs:885-932 | members that finalize on one round-1 set, whatever they were sent, hold one key and shares of one polynomial |
| KeySets.DealtLiesOn | crates/dkgkit-frost/src/lib.rs:700-738 | a dealt key set lies on the dealt polynomial with even constant term |
| KeySets.DealsForOne | crates/dkgkit-frost/src/lib.rs:869-882 | among all dealt packages each member finds exactly one per sender |
| KeySets.HonestRound1Valid | crates/dkgkit-frost/src/lib.rs:807-831 | honest round-1 packages form a valid set |
| KeySets.OwnFinalize | crates/dkgkit-frost/src/lib.rs:833-932 | with honest deals every member finalizes exactly when the constants do not cancel, with its share of the common polynomial |
| KeySets.ReconstructSecretScalar | crates/dkgkit-frost/src/lib.rs:989-1030 | the summing loop gives the specified result |
| KeySets.ReconstructExact | crates/dkgkit-frost/src/lib.rs:989-1030 | from any list of shares, reconstruction succeeds if and only if the signers are solvable and each has a stored share of its roster rank |
| KeySets.ReconstructValue | crates/dkgkit-frost/src/lib.rs:1001-1030 | and then it is the weighted sum of those shares |
| KeySets.FindShareExact | crates/dkgkit-frost/src/lib.rs:996-999 | a lookup finds exactly the share stored last under the id |
| KeySets.ReconstructSecret | crates/dkgkit-frost/src/lib.rs:989-1030 | every solvable signer set reconstructs the secret of any key set on a polynomial |
| KeySets.ReshareExact | crates/dkgkit-frost/src/lib.rs:740-805 | for any key set: resharing succeeds if and only if the signers reconstruct the even group key's scalar or its opposite, and then the new shares lie on a polynomial with that secret under the same key |
| KeySets.ReshareKeepsKey | crates/dkgkit-frost/src/lib.rs:740-805 | resharing succeeds if and only if the old signers are solvable, and the new set lies on a polynomial with the same secret |
| KeySets.ReshareChainSound | crates/dkgkit-frost/src/lib.rs:740-805 | a chain from any key set: after one or more successful steps the shares lie on a polynomial with the unchanged group key |
| KeySets.ReshareChainKeepsKey | crates/dkgkit-frost/src/lib.rs:740-805 | over every finite chain of successful reshares the key is unchanged and every solvable set of the latest config reconstructs the same secret |
| Signing.ValidateTagSet | crates/dkgkit-frost/src/lib.rs:1566-1636 | the shared loop of the nonce and share set validators gives the specified result |
| Signing.TagSetResult | crates/dkgkit-frost/src/lib.rs:1566-1636 | accepts exactly one entry per signer, all of one session |
| Signing.AggregatePublicNonce | crates/dkgkit-frost/src/lib.rs:1523-1555 | the point sum, its even form, its parity and the session, or the first error |
| Signing.CombineNoncesExact | crates/dkgkit-frost/src/lib.rs:1523-1555 | for any packages: an aggregate exists if and only if there is one package per signer, of one session, all points, with non-zero sum; it is the even form of the sum with its parity |
| Signing.AggregateSignatureSharesForOutput | crates/dkgkit-frost/src/lib.rs:1306-1354 | the validating and summing loop gives the specified result |
| Signing.AggregateExact | crates/dkgkit-frost/src/lib.rs:1306-1354 | for Q = +-P + B*G, aggregation accepts if and only if its inputs are complete and the shares sum to R +- e*P; the result then verifies under Q |
| Signing.AggregateIsUntweaked | crates/dkgkit-frost/src/lib.rs:1160-1196 | aggregation under the group key is the output form with tweak zero |
| HonestSigning.CoefficientsOrder | crates/dkgkit-frost/src/lib.rs:1097-1105 | signers holding the set in different orders look up the same coefficient |
| HonestSigning.SignShareExact | crates/dkgkit-frost/src/lib.rs:1208-1299 | for any inputs: a share is returned if and only if nonce and key share are of one id in a solvable signer set, the key share has the roster rank, the nonces aggregate in the nonce's session and the output key is an even point; it carries that id and session |
| HonestSigning.CombineHonest | crates/dkgkit-frost/src/lib.rs:1523-1555 | honest nonces in any order aggregate to the even form of their sum |
| HonestSigning.CancelledNonces | crates/dkgkit-frost/src/lib.rs:1523-1555 | nonces that cancel are refused |
| HonestSigning.HonestShare | crates/dkgkit-frost/src/lib.rs:1208-1299 | every honest signer succeeds, and its share does not depend on the order in which it holds signers and nonces |
| HonestSigning.HonestTotal | crates/dkgkit-frost/src/lib.rs:1075-1158 | the weighted shares sum to R + (+-e)*f(0) for either parity of the nonce |
| HonestSigning.HonestAggregate | crates/dkgkit-frost/src/lib.rs:1208-1354 | honest shares in any order aggregate, under any output key +-P + B*G, to a signature that verifies under it |
| HonestSigning.HonestGroupSignature | crates/dkgkit-frost/src/lib.rs:1075-1196 | the same under the group key |
| Taproot.TaprootChildKeyTweak | crates/dkgkit-bitcoin/src/lib.rs:262-354 | the two derivation loops give the specified tweak or first error |
| Taproot.RecomputeExact | crates/dkgkit-bitcoin/src/lib.rs:296-326 | along any path the library derives, the hand-written derivation ends at the same key and chain code with the sum of all tweaks, unless the sum of some prefix is zero, and then it fails |
| Taproot.AddressExact | crates/dkgkit-bitcoin/src/lib.rs:189-220 | the published key from the two HMAC values and the tap hash; it exists if and only if every index is below 2^31, both tweaks are non-zero scalars and no key on the way is infinity |
| Taproot.ChildKeyTweakExact | crates/dkgkit-bitcoin/src/lib.rs:262-354 | the mismatch check never fires; for a known network and a derivable address it succeeds if and only if neither the BIP32 tweaks nor the inner sum cancel; its output key is the address's and equals A*P + B*G with even Y |
| Taproot.CancellingTweaks | crates/dkgkit-bitcoin/src/lib.rs:296-322 | hashes under which an address is published and its tweak fails because the BIP32 tweaks cancel |
| Taproot.CancellingTapTweak | crates/dkgkit-bitcoin/src/lib.rs:334-342 | hashes under which an address is published and its tweak fails because the tap tweak cancels |
| Taproot.SilentPaymentOutputExact | crates/dkgkit-bitcoin/src/lib.rs:369-414 | with I the even lift of P + k*G the output is the even lift of I + tap(I)*G; it succeeds if and only if P and k are usable and no point or tweak sum on the way is zero |
| Taproot.SilentPaymentLeafExact | crates/dkgkit-bitcoin/src/lib.rs:425-454 | the leaf output is I itself; it succeeds if and only if P and k are usable and P + k*G is not infinity |
| Taproot.SilentPaymentTweaks | crates/dkgkit-bitcoin/src/lib.rs:369-454 | both tweaks describe an even output key A*P + B*G, under all parities |
| Taproot.FinishTweakDescribes | crates/dkgkit-bitcoin/src/lib.rs:328-353 | the two nested parity flips give the signer's A and B |
| Taproot.TweakedSpend | crates/dkgkit-frost/src/lib.rs:1208-1354 | for any tweak that describes its output key, all honest shares are produced and aggregate to a signature under it |
| Taproot.ChildAddressSpend | crates/dkgkit-bitcoin/src/lib.rs:189-354 | end to end: whenever the child tweak exists, an honest solvable quorum spends exactly the published address |
| Messages.KindRoundTrip | crates/dkgkit-core/src/lib.rs:388-419 | a kind survives the trip through text if and only if it is not a custom one spelled like a named one |
| Messages.EnvelopeExact | crates/dkgkit-nostr/src/lib.rs:33-110 | an event decodes to m if and only if it is m's envelope, its JSON spelled in any way, and m is well formed |
| Messages.EnvelopeRoundTrip | crates/dkgkit-nostr/src/lib.rs:33-72 | wrapping and unwrapping succeeds exactly for well-formed messages and returns them |
| Transport.MemoryTransport.Publish | crates/dkgkit-transport/src/lib.rs:60-63 | appends |
| Transport.MemoryTransport.DrainMatching | crates/dkgkit-transport/src/lib.rs:65-80 | returns, in order, exactly the session's messages that the predicate accepts, keeps all others, and leaves every other session's list as it was |
| Transport.MemoryTransport.DrainSession | crates/dkgkit-transport/src/lib.rs:19-22 | returns the session's messages in order, leaves none of them, and leaves every other session's list as it was |
| Transport.MemoryTransport.PeekSession | crates/dkgkit-transport/src/lib.rs:40-46 | the session's messages in order, changing nothing |
| Transport.LocalNostrEventTransport.Publish | crates/dkgkit-nostr/src/lib.rs:525-529 | appends the envelope |
| Transport.LocalNostrEventTransport.DrainMatching | crates/dkgkit-nostr/src/lib.rs:531-548 | succeeds if and only if every event decodes; then it returns only the session's messages that the predicate accepts, keeps exactly the other events, and leaves every other session's list as it was; a failure empties the queue |
| Transport.DrainSplits | crates/dkgkit-transport/src/lib.rs:65-80 | a drain splits the queue into returned and kept, as multisets |
| Transport.DrainMembers | crates/dkgkit-transport/src/lib.rs:65-80 | what a drain returns and what it keeps, by session and predicate |
| Transport.OtherSessions | crates/dkgkit-transport/src/lib.rs:65-80 | a drain leaves every other session's list unchanged, in order |
| Transport.SessionDrained | crates/dkgkit-transport/src/lib.rs:19-22 | draining a whole session returns exactly its list |
| Transport.DrainEventsMembers | crates/dkgkit-nostr/src/lib.rs:531-548 | the same for events, by their session tags and what they decode to |
| Transport.DrainRefines | crates/dkgkit-nostr/src/lib.rs:531-548 | on well-formed messages an envelope drain is the memory drain |
| Transport.DrainOkIffWellFormed | crates/dkgkit-nostr/src/lib.rs:531-548 | a drain succeeds if and only if every queued message is well formed |
| Transport.Conservation | crates/dkgkit-transport/src/lib.rs:60-80 | over every run, published equals drained plus pending |
| Transport.NostrRefinesMemory | crates/dkgkit-nostr/src/lib.rs:525-548 | over a run both queues hold and return the same lists in the same order if and only if no drain follows a malformed message |
| Transport.MalformedLosesQueue | crates/dkgkit-nostr/src/lib.rs:531-548 | a good message followed by one with an empty kind: the next drain fails and both are gone |
| Coordinator.DecodeRound1Exact | crates/dkgkit-frost/src/lib.rs:357-379 | any messages decode to a list of packages if and only if each is a round-1 broadcast of its sender's own package |
| Coordinator.DecodeRound1Messages | crates/dkgkit-frost/src/lib.rs:357-379 | published round-1 packages decode to themselves, in order |
| Coordinator.DecodeRound2Exact | crates/dkgkit-frost/src/lib.rs:390-417 | any messages decode to a list of packages if and only if each is a direct message from the package's sender to its recipient |
| Coordinator.DecodeRound2Messages | crates/dkgkit-frost/src/lib.rs:390-417 | published round-2 packages decode to themselves, in order |
| Coordinator.DecodeNoncesExact | crates/dkgkit-frost/src/lib.rs:434-462 | any messages decode to a list of nonces if and only if each is a broadcast of its sender's own nonce in its own session |
| Coordinator.DecodeNonceMessages | crates/dkgkit-frost/src/lib.rs:434-462 | published nonces decode to themselves, in order |
| Coordinator.DecodeSharesExact | crates/dkgkit-frost/src/lib.rs:471-498 | any messages decode to a list of shares if and only if each is a broadcast of its sender's own share in its own session |
| Coordinator.DecodeShareMessages | crates/dkgkit-frost/src/lib.rs:471-498 | published signature shares decode to themselves, in order |
| Coordinator.DrainRecipient | crates/dkgkit-sdk/src/lib.rs:275-290 | a recipient drains exactly its packages and leaves the others' |
| Coordinator.OthersUntouched | crates/dkgkit-sdk/src/lib.rs:275-290 | one recipient's drain does not change what another will find |
| Coordinator.FrostCoordinator.PublishHtssDkgRound1 | crates/dkgkit-sdk/src/lib.rs:194-201 | appends the broadcast message, well formed or not; a clean queue stays clean for a named session and a non-zero sender |
| Coordinator.FrostCoordinator.PublishHtssDkgRound2 | crates/dkgkit-sdk/src/lib.rs:203-210 | appends the direct message, well formed or not; a clean queue stays clean for a named session and non-zero ids |
| Coordinator.FrostCoordinator.DrainHtssDkgRound1 | crates/dkgkit-sdk/src/lib.rs:260-273 | decodes and removes exactly the session's round-1 messages; every other message stays and every other session's list is unchanged; with a malformed message queued it fails and empties the queue |
| Coordinator.FrostCoordinator.DrainHtssDkgRound2For | crates/dkgkit-sdk/src/lib.rs:275-290 | decodes and removes exactly the session's round-2 messages to the recipient or to everybody; every other message stays and every other session's list is unchanged; with a malformed message queued it fails and empties the queue |
| Coordinator.FrostCoordinator.DrainHtssNonces | crates/dkgkit-sdk/src/lib.rs:319-332 | decodes and removes exactly the session's nonces; every other message stays and every other session's list is unchanged; with a malformed message queued it fails and empties the queue |
| Coordinator.FrostCoordinator.DrainHtssSignatureShares | crates/dkgkit-sdk/src/lib.rs:334-347 | decodes and removes exactly the session's signature shares; every other message stays and every other session's list is unchanged; with a malformed message queued it fails and empties the queue |
| Vault.NewVault | examples/vault-service/src/main.rs:28-47 | succeeds if and only if the grouped config converts and the session has a name, with the first error otherwise; every constructed config converts; the service starts empty |
| Vault.VaultService.PublishRound1 | examples/vault-service/src/main.rs:54-59 | one stored state and one queued message per roster member |
| Vault.VaultService.PublishRound2 | examples/vault-service/src/main.rs:65-72 | every contributor's packages are queued in id order |
| Vault.VaultService.FinishMember | examples/vault-service/src/main.rs:74-93 | a member drains exactly its own packages and succeeds exactly when the constants do not cancel and no other key is stored; it then stores its share under the common key, and an error stores nothing |
| Vault.VaultService.RunHtssDkg | examples/vault-service/src/main.rs:53-96 | from any idle service, new or used, the run succeeds if and only if the constants do not cancel and no other key is stored; then one key, exactly the roster's shares, all on one polynomial, and an empty queue; otherwise key and shares are as before |
| Vault.VaultService.SignAuthorization | examples/vault-service/src/main.rs:113-180 | succeeds if and only if policy, finished key, session name, solvable signers and non-cancelling nonces; the aggregate then verifies under the vault key; whatever the outcome a finished vault stays finished with an empty queue |
| NonceSlot.SigningSession.GenerateNonce | crates/dkgkit-frost/src/lib.rs:2220-2239 | fills the slot with a new nonce, or changes nothing |
| NonceSlot.SigningSession.SignWithNonce | crates/dkgkit-frost/src/lib.rs:2241-2291 | an attempt with the right key by a signer empties the slot, whether or not the rest succeeds; it returns the nonce it took |
| NonceSlot.RunInvariant | crates/dkgkit-frost/src/lib.rs:2206-2291 | over every interleaving the slot holds only an unconsumed generated nonce |
| NonceSlot.AttemptEmpties | crates/dkgkit-frost/src/lib.rs:2261-2263 | after any attempt, a failed one as well, the slot is empty |
| NonceSlot.SlotExact | crates/dkgkit-frost/src/lib.rs:2206-2291 | the slot holds a nonce if and only if one was generated and no attempt came after it, and then the latest |
| NonceSlot.EventExact | crates/dkgkit-frost/src/lib.rs:2206-2291 | from the calls alone: a call signs if and only if it is an attempt with a fresh nonce whose rest succeeds, and burns if and only if the rest fails |
| NonceSlot.SecondAttemptFails | crates/dkgkit-frost/src/lib.rs:2241-2291 | of two attempts with no nonce call between them the second touches nothing |
| NonceSlot.NonceSingleUse | crates/dkgkit-frost/src/lib.rs:2206-2291 | no nonce enters two attempts: consumed nonces strictly increase |
| NonceSlot.ConsumedAtMostGenerated | crates/dkgkit-frost/src/lib.rs:2206-2291 | shares and failed attempts never outnumber generations |
| NonceSlot.SignedWasGenerated | crates/dkgkit-frost/src/lib.rs:2206-2291 | a consumed nonce was generated earlier in the same session |
| SecpScalars.ScalarsAreField | crates/dkgkit-frost/src/lib.rs:1892-1922 | if the group order is prime, integers modulo it satisfy every law the model uses, inverses included |
| SecpScalars.CurveExists | crates/dkgkit-frost/src/lib.rs:1892-1922 | if the group order is prime, some parity and hash over these scalars meet every assumption of the model |

## Left out

- GaussJordan.SolveScalarSystem: `Vec<Vec<_>>` is an array copied from its input, because the input may be ragged; row swaps exchange entries one by one.
- SecpScalars.ScalarsAreField: that the secp256k1 group order is prime is a hypothesis.
- Dkg.VerifyShareExact: at most 65535 commitments, because the source casts a degree to `u16`; the round-1 validator admits exactly `threshold` of them, a `u16`.
- Dkg.ExpectedPointIsDerivative: the same bound on the commitments.
- Vault.VaultService.RunHtssDkg: not a run that starts with round-2 packages which a cancelled run left in the queue.
- VaultQuorums.VaultQuorumsSolvable: minimal quorums; larger ones are decided by `Birkhoff.SolvableIffUnisolvent` and the exact splits, without a closed condition.
- Solvability of sets that neither split into blocks nor extend a solvable set by one point has no condition here simpler than `Birkhoff.SolvableIffUnisolvent`.
- Taproot.ChildAddressSpend: covers the published output key; address strings, network names and descriptor fields are not modelled.
- Coordinator.FrostCoordinator.DrainHtssDkgRound1: the decoded package is compared with the envelope's sender and kind; the payload codec is assumed to invert.
- `run_distributed_htss_keygen` and the local signing conveniences (`sign_digest_with_local_*`): compositions of modelled steps, which the vault run covers.
- Base FROST from `schnorr_fun` (key generation, nonces, sign sessions): outside code; only the nonce slot is modelled.
- Byte encodings of scalars and points, the 33-byte nonce length check, SHA-256, HMAC, JSON and bincode: replaced by field elements and arbitrary functions.
- Participant labels, signing request records, the session builder, authorization texts: easy members only.
- Relay connections, encryption and threads of the live transport; transaction building and sighashes.
- Secrecy and randomness quality: not functional properties of this code.
