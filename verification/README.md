# Verified models of Terp Network core logic

This project models, in Dafny, the parts of the Terp Network node and its tooling whose correctness
rests on arithmetic, on state kept across many steps, or on two programs agreeing byte by byte, and
proves what those parts promise. `dafny verify dfyconfig.toml` checks everything.
Automatic induction is switched off on every lemma: each induction is written out.

## What is modelled

**The Mersenne-31 field and the aggregate proof** (`crates/lean-aggregate`). `NumberTheory` and
`Primality` supply Fermat's theorem, the binomial theorem, the Gaussian integers and a Pocklington
certificate that 2^31 - 1 is prime. `M31`, `M31Extension`, `M31Roots` and `M31Omega` model the 32- and
64-bit operations on the types of `Words`, the extension F2 = a + bi, inversion, powers and the 16th
root of unity.
`FriFold` and `FriCode` relate one fold of evaluations to one fold of coefficients and show that values
on a domain determine a polynomial. `Merkle` holds the commitment trees, `Fri` and `FriLoops` the prover
and the verifier, `FriQueries` what they draw from the roots, `FriAccept` what the verifier accepts from
any prover, `FriDegree` which values an honest prover can always prove, `Aggregate`, `AggregateLeaves`,
`AggregateBlob` and `AggregateLoops` the composition of leaves and the blobs made from them. Hash functions and challenges are parameters; binding results ask
only that no two of the inputs hashed in the case at hand collide, and `HashExample` gives a hash with
32-byte digests for which they do not.

**The v520 delegation-reward patch** (`app/upgrades/v520/patch.go`). `Dec` and `CoinSets` are the
18-digit decimals and decimal coins, `Distribution` the keeper stores and the patch as functions,
`RefCounts`, `Rewards`, `RewardAmounts`, `PatchRuns`, `PatchConservation`, `PatchIdempotence`,
`PatchPayments` and `PatchOutcome` the theorems, and `Keepers` the imperative form with its loops. `MapSums` adds up the values of a map. The
upgrade handler ignores the error the patch returns and goes on, so the state left behind by an error
return is modelled and the invariants are proved for it too.

**The CID codec and the UnixFS encoder** (`cmd/ipfs`). `Varint`, `UnixFs`, `Cid` and `CidReader`: varints,
the wire format, the slice parser with its accessors, and the streaming parser with its growing buffer.

**Derived balances** (`cmd/terpd/cmd/export.go`): `Balances`, and `BalanceRounding` for what rounding does
to a whole snapshot.

**The Commonware epoch rotator** (`server/commonware.go`): `Rotator` is the state machine over all
interleavings of commits, rotator steps and engine failures; `Commonware` the engine record and its methods.

**The faucet rate limiter** (`app/testutils/faucet.go`): `Faucet`, the limiter and a state machine over
concurrent requests.

## What the proofs found

Where a property one would expect does not hold everywhere, the exact condition is proved.

- The one-step fold `red` equals reduction modulo P exactly when the low 31 bits plus the rest stay
  below 2P; the first word where it fails is 2^62 - 1 (`M31.RedExact`, `M31.RedRange`).
- The FRI verifier takes the point of the last layer to be 1 whichever of the two values comes first. An
  honest proof of 16 arbitrary values is therefore accepted exactly when each odd query meets a zero
  last challenge or two equal last values (`Fri.HonestVerdict`); `Fri.RejectionHappens` is a rejected one.
  It is accepted whatever the challenges if and only if the values come from a polynomial with at most
  eight coefficients (`FriDegree.DegreeExactly`), as those of every composition of leaves do
  (`Aggregate.CompositionAccepted`).
- The FRI verifier compares a fold with what comes next on layer 3 alone, and it does not check how many
  layers a query reveals. The exact condition for acceptance, over all proofs, and the exact condition
  for a panic are proved (`FriAccept.AcceptExactly`). So a proof is accepted although its later layers
  show one arbitrary value that is no fold of the first layer, and with a sixth layer the verifier panics
  (`FriAccept.UnfoldedAccepted`, `FriAccept.FoldNotCompared`); a proof that reveals no layers is accepted
  for any values and any final value (`FriAccept.BareProofAccepted`).
- Checking an aggregate reads neither its period, participation bits and object root nor its coefficients
  and number of queries (`AggregateBlob.FieldsNotChecked`), so what these fields say of the leaves holds
  only of composed blobs (`AggregateBlob.UnionBits`).
- Different bitfields can contribute the same to a composition: those with equal first two words modulo
  P, and those whose second words are the object root's and its complement (`Aggregate.LeafContributes`,
  `Aggregate.SharedContribution`).
- A composed aggregate checks against its own leaves exactly when there are fewer than 65536 of them,
  because the count is cut to 16 bits (`AggregateBlob.RoundTrip`); 65536 equal leaves are an instance
  (`AggregateBlob.TooManyLeaves`).
- A version 1 CID whose codec needs more than 63 bits is constructed but cannot be parsed back, and its
  `Hash` is not the multihash it was built from (`Cid.V1Parses`, `Cid.V1Accessors`); the first such codec
  is 2^63 (`Cid.WideCodecExample`).
- The streaming parser refuses digests above 32 MiB that the slice parser accepts
  (`CidReader.CidFromReader`, `CidReader.LongDigestRefused`).
- Bank entries that repeat an address overwrite earlier ones. The lost amount is stated exactly
  (`Balances.LiquidConserved`); some of a denomination is lost if and only if an entry that holds it is
  followed by another of its address (`Balances.OverwrittenExactly`, `Balances.RepeatedAddressLoses`).
- A faucet request overlaps another when it is admitted while an earlier one for its address, admitted a
  window ago or more, is still in flight. At most one request per address is in flight throughout a run
  if and only if no arrival overlaps (`Faucet.OneExactly`), and then payouts to an address are at least a
  window apart (`Faucet.Safety`). After any overlapping arrival the run can go on so that they are not
  (`Faucet.OverlapBreaksSpacing`), also from the start (`Faucet.SlowSendBreaksSpacing`). Sends that finish
  within the window are enough (`Faucet.TimelySafety`) but not necessary (`Faucet.LateButClear`).
- An epoch that finds the rotator's channel full is never started (`Rotator.DroppedNeverStarts`); with
  one block per period, five commits before the rotator runs lose period 6 (`Rotator.SixthPeriodLost`).
  The early return of `rotate` for epochs not above the current one is never taken
  (`Rotator.RotationsAreNews`).

## Model

| member | source | states |
|---|---|---|
| `Primality.MersennePrime` | crates/lean-aggregate/src/m31.rs:4 | 2^31 - 1 is prime, by a Pocklington certificate on 151 * 331 |
| `NumberTheory.Fermat` | crates/lean-aggregate/src/m31.rs:30-31 | Fermat's little theorem, behind inversion by the power P - 2 |
| `M31.RedExact` | crates/lean-aggregate/src/m31.rs:7-13 | the fold equals reduction modulo P if and only if the low 31 bits plus the rest are below 2P, for every 64-bit word |
| `M31.RedRange` | crates/lean-aggregate/src/m31.rs:7-13 | it is exact up to 2^62 - 2 and wrong at 2^62 - 1 |
| `M31.Add` | crates/lean-aggregate/src/m31.rs:16-18 | addition modulo P, right on all 32-bit words |
| `M31.Sub` | crates/lean-aggregate/src/m31.rs:21-23 | subtraction modulo P whenever the source does not underflow |
| `M31.Mul` | crates/lean-aggregate/src/m31.rs:26-28 | multiplication modulo P, up to one word beyond the canonical range |
| `M31.InvRound` | crates/lean-aggregate/src/m31.rs:34-41 | one round of the loop keeps r * b^e congruent to the target power |
| `M31.Inv` | crates/lean-aggregate/src/m31.rs:30-43 | a * inv(a) == 1 for every nonzero canonical a, and inv(0) == 0 |
| `M31.InverseUnique` | crates/lean-aggregate/src/m31.rs:30-43 | inverses in the field are unique |
| `M31Extension.MulIsReduce` | crates/lean-aggregate/src/m31.rs:74-80 | the extension product is the product of Gaussian integers reduced modulo P |
| `M31Extension.CommutativeRing` | crates/lean-aggregate/src/m31.rs:60-80 | the F2 operations satisfy the commutative ring laws |
| `M31Roots.NormNonzero` | crates/lean-aggregate/src/m31.rs:89-97 | a^2 + b^2 is zero modulo P only for a == b == 0, because P == 3 mod 4 |
| `M31Roots.InvF2` | crates/lean-aggregate/src/m31.rs:89-97 | z * inv(z) == 1 for every nonzero z in F2 |
| `M31Roots.PowRound` | crates/lean-aggregate/src/m31.rs:103-108 | one round of square-and-multiply keeps r * b^e |
| `M31Roots.PowF2` | crates/lean-aggregate/src/m31.rs:99-110 | pow is the e-fold product for every 32-bit exponent |
| `M31Omega.Frobenius` | crates/lean-aggregate/src/m31.rs:74-80 | z^P is the conjugate of z |
| `M31Omega.FiveIsNoSquare` | crates/lean-aggregate/src/m31.rs:116 | 5, the norm of the generator 2 + i, is no square modulo P |
| `M31Omega.OmegaOrder` | crates/lean-aggregate/src/m31.rs:113-124 | for every k, omega^k == 1 if and only if 16 divides k, and omega^8 == -1 |
| `M31Omega.OmegaPower` | crates/lean-aggregate/src/m31.rs:113-124 | omega is (2 + i) to the power (P^2 - 1) / 16 |
| `M31Omega.Omega16` | crates/lean-aggregate/src/m31.rs:113-124 | the squaring loop and final power compute that root of unity |
| `FriFold.FoldPairSolves` | crates/lean-aggregate/src/fri.rs:136-138 | from e + x*o and e - x*o the fold recovers e + beta*o |
| `FriFold.EvalSplit` | crates/lean-aggregate/src/fri.rs:133-134 | f(x) == fe(x^2) + x*fo(x^2) for every polynomial |
| `FriFold.FoldCodeword` | crates/lean-aggregate/src/fri.rs:122-141 | folding the evaluations of f on n points gives the evaluations, on the n/2 squares, of the polynomial with coefficients f0 + beta*f1, f2 + beta*f3, ... |
| `FriFold.FoldLayer` | crates/lean-aggregate/src/fri.rs:122-141 | the loop computes that fold |
| `FriFold.Combine` | crates/lean-aggregate/src/fri.rs:245-251 | the verifier's recombination of two values is the prover's |
| `FriFold.SwapExactly` | crates/lean-aggregate/src/fri.rs:248-253 | exchanging the two values at the point 1 keeps the fold if and only if beta == 0 or the values are equal |
| `FriCode.ValuesDetermine` | crates/lean-aggregate/src/fri.rs:41-58 | polynomials with equally many, at most n, coefficients that agree on the domain of size n are equal |
| `Merkle.OpeningChecks` | crates/lean-aggregate/src/fri.rs:78-120 | the opening of every value checks against the root, for any hash functions |
| `Merkle.ChecksExactly` | crates/lean-aggregate/src/fri.rs:109-120 | if none of the inputs hashed for the tree and on the climb collide, a value and a path of any length check at a slot if and only if they are the committed value and its opening |
| `Merkle.RootDetermines` | crates/lean-aggregate/src/fri.rs:78-97 | if no two inputs hashed for two trees of 2^d values collide, equal roots mean equal values |
| `Merkle.RootSplit` | crates/lean-aggregate/src/fri.rs:86-96 | the root over two halves is the node of the two roots, left before right |
| `Merkle.RootOfThree` | crates/lean-aggregate/src/fri.rs:78-97 | the trees of one value and of three: the fourth place holds 32 zero bytes |
| `HashExample.WideEnough` | crates/lean-aggregate/src/fri.rs:60-76 | for any two lists of 16 values some hash with 32-byte digests is free of collisions on their trees |
| `Merkle.MerkleRoot` | crates/lean-aggregate/src/fri.rs:78-97 | the levels and root over the padded leaves; empty input gives the zero digest |
| `Merkle.Pad` | crates/lean-aggregate/src/fri.rs:83-85 | padding stops at the next power of two |
| `Merkle.BuildLevels` | crates/lean-aggregate/src/fri.rs:86-96 | the level loop builds all levels and ends with the root |
| `Merkle.MerkleOpen` | crates/lean-aggregate/src/fri.rs:99-107 | the loop collects the siblings on the way up |
| `Merkle.MerkleCheck` | crates/lean-aggregate/src/fri.rs:109-120 | the loop accepts exactly the paths that climb to the root |
| `Fri.LayerFolds` | crates/lean-aggregate/src/fri.rs:178-186 | each layer is the fold of the one before by a challenge over the roots so far |
| `FriQueries.FoldedByDraw` | crates/lean-aggregate/src/fri.rs:143-156 | layer l + 1 is the fold of layer l by the challenge drawn from the roots of layers 0 to l |
| `FriQueries.HonestDraws` | crates/lean-aggregate/src/fri.rs:158-168 | the honest proof has four queries, and query q is at the residue modulo 16 of draw q from the root of the values |
| `FriQueries.AcceptedDraws` | crates/lean-aggregate/src/fri.rs:222-230 | so has every accepted proof |
| `FriQueries.EveryQueryCounts` | crates/lean-aggregate/src/fri.rs:222-256 | for every hash, one odd draw at any of the four queries makes the verifier reject the values of x^8, and at a fifth it does not |
| `Fri.HonestOpened` | crates/lean-aggregate/src/fri.rs:237-244 | on every layer of an honest query both openings check |
| `Fri.LastComparison` | crates/lean-aggregate/src/fri.rs:245-256 | the comparison with the final value succeeds if and only if the query is even, the last challenge is zero, or the last two values agree |
| `Fri.HonestVerdict` | crates/lean-aggregate/src/fri.rs:170-262 | for any 16 values, hashes and challenges: verify(prove(ev)) accepts if and only if every drawn query is fine, rejects otherwise, and never panics |
| `Fri.LowDegreeAccepted` | crates/lean-aggregate/src/fri.rs:170-262 | the honest proof of a polynomial with at most eight coefficients is always accepted |
| `Fri.FinalValue` | crates/lean-aggregate/src/fri.rs:207-211 | for four coefficients the final value is (c0 + b0*c1) + b1*(c2 + b0*c3) |
| `Fri.AlternatingRejected` | crates/lean-aggregate/src/fri.rs:245-256 | the honest proof of the values of x^8 is rejected when the last challenge is nonzero and the first query odd |
| `Fri.RejectionHappens` | crates/lean-aggregate/src/fri.rs:170-262 | concrete challenges, for every hash, under which an honest proof is rejected |
| `FriDegree.Interpolate` | crates/lean-aggregate/src/fri.rs:122-141 | any 2^k values on the domain are those of a polynomial with as many coefficients |
| `FriDegree.HighDegreeRejected` | crates/lean-aggregate/src/fri.rs:170-262 | if some coefficient from the ninth on is nonzero, some challenges make the verifier reject the honest proof |
| `FriDegree.DegreeExactly` | crates/lean-aggregate/src/fri.rs:170-262 | for every hash and any 16 values: the honest proof is accepted under all challenges and queries if and only if the values come from at most eight coefficients |
| `FriAccept.QueryExactly` | crates/lean-aggregate/src/fri.rs:229-258 | the outcome of one query of any prover: accepted if and only if it has at most five layers, no more than there are roots, each opened under its own root, and layer 3 folds to the final value |
| `FriAccept.AcceptExactly` | crates/lean-aggregate/src/fri.rs:214-262 | for every proof: accepted if and only if the first root commits to the 16 values and the four queries are at the drawn indices and accepted; panics if and only if a query with a sixth layer follows accepted ones |
| `FriAccept.BareProofAccepted` | crates/lean-aggregate/src/fri.rs:229-262 | a proof with one root and queries without layers is accepted for any 16 values, any final value, any hash and challenges |
| `FriAccept.UnfoldedAccepted` | crates/lean-aggregate/src/fri.rs:229-262 | a proof with the committed first layer and k flat layers of any one value f is accepted for up to four of them and panics for more, for any 16 values, hash and challenges |
| `FriAccept.FoldNotCompared` | crates/lean-aggregate/src/fri.rs:245-256 | such a proof is accepted although its second layer does not show the fold of its first |
| `FriAccept.FirstLayerBound` | crates/lean-aggregate/src/fri.rs:237-244 | unless hashing collides, what an accepted proof reveals on its first layer are the committed values and their openings |
| `FriLoops.Prove` | crates/lean-aggregate/src/fri.rs:170-212 | the prover's loops build the honest proof |
| `FriLoops.Verify` | crates/lean-aggregate/src/fri.rs:214-262 | the verifier's loops return the verdict characterised by the rows on acceptance, on any proof, including the division by zero on too many layers |
| `Aggregate.XorCanonical` | crates/lean-aggregate/src/fri.rs:23-30 | the exclusive or of two canonical words stays within the range where products are exact |
| `Aggregate.LeafDetermined` | crates/lean-aggregate/src/fri.rs:23-38 | two leaves of one statement have equal coefficient words at a position if and only if the first two words of their bitfields agree modulo P |
| `AggregateLeaves.CoefficientsAre` | crates/lean-aggregate/src/fri.rs:23-38 | each coefficient from the bytes: the folded 64-bit counter, the first bitfield word and the first object-root word modulo P, and bit by bit the difference of the second words modulo P |
| `AggregateLeaves.CounterResidue` | crates/lean-aggregate/src/fri.rs:25 | below 2^62 - 1 the first coefficient is the counter, period plus 256 times the position in 64 bits, modulo P |
| `AggregateLeaves.LeavesContribute` | crates/lean-aggregate/src/fri.rs:23-38 | when two leaves of any periods, object roots and positions contribute the same field coefficients, if and only if |
| `AggregateLeaves.ThirdCoefficient` | crates/lean-aggregate/src/fri.rs:265-274 | the third composed coefficient of n leaves is n times the first object-root word, modulo P |
| `AggregateLeaves.RootsCompose` | crates/lean-aggregate/src/fri.rs:265-274 | equal compositions of equally many leaves, n not divisible by P, have equal first object-root words modulo P |
| `Aggregate.LeafContributes` | crates/lean-aggregate/src/fri.rs:23-58 | two leaves of one statement contribute the same field coefficients if and only if their first bitfield words agree modulo P and the second ones do too or are the second word of the object root and its complement |
| `Aggregate.SharedContribution` | crates/lean-aggregate/src/fri.rs:23-38 | two leaves with different bitfields and coefficient words but the same contribution |
| `Aggregate.PositionsDiffer` | crates/lean-aggregate/src/fri.rs:25 | leaves of a period at positions less than P/256 apart have different leading coefficients, wherever the 64-bit counter stands and across its wrap-around |
| `Aggregate.EvalWords` | crates/lean-aggregate/src/fri.rs:48-53 | coefficient times power, power by power, is evaluation |
| `Aggregate.SumOfCubics` | crates/lean-aggregate/src/fri.rs:41-58 | the sum of the leaves' values is the value of the summed coefficients |
| `Aggregate.ComposedIsCodeword` | crates/lean-aggregate/src/fri.rs:41-58 | compose_evals is the codeword of composed_coeffs, for all leaves |
| `Aggregate.ComposedValue` | crates/lean-aggregate/src/fri.rs:41-58 | value k is the composed cubic at omega^k |
| `Aggregate.CodewordDetermines` | crates/lean-aggregate/src/fri.rs:265-274 | two lists of leaves have the same evaluations if and only if they have the same composed coefficients |
| `Aggregate.CompositionAccepted` | crates/lean-aggregate/src/fri.rs:41-58 | the proof of every composition is accepted, whatever the hashes and challenges |
| `AggregateBlob.UnionBits` | crates/lean-aggregate/src/lib.rs:91-99 | a participation bit is set in the blob if and only if some leaf sets it |
| `AggregateBlob.ComposedFields` | crates/lean-aggregate/src/lib.rs:82-119 | composition succeeds if and only if there are two leaves or more of one statement; the blob has their period and object root, the union of their bits, their number modulo 2^16, the committed coefficients and four queries |
| `AggregateBlob.VerifyExactly` | crates/lean-aggregate/src/lib.rs:122-142 | acceptance is exactly equality of count, identifiers, commitment and layer roots |
| `AggregateBlob.FieldsNotChecked` | crates/lean-aggregate/src/lib.rs:122-142 | blobs that agree in count, identifiers, commitment and layer roots are treated alike, whatever their period, participation bits, object root, coefficients and number of queries |
| `AggregateBlob.RoundTrip` | crates/lean-aggregate/src/lib.rs:82-142 | a composed blob is accepted for its own leaves if and only if there are fewer than 65536 |
| `AggregateBlob.TooManyLeaves` | crates/lean-aggregate/src/lib.rs:82-142 | 65536 equal leaves compose to a blob that is refused for them |
| `AggregateBlob.BlobBinds` | crates/lean-aggregate/src/lib.rs:82-142 | unless hashing the two compositions collides, a composed blob is accepted for other leaves if and only if the counts agree modulo 2^16 and the composed coefficients are equal |
| `AggregateBlob.BlobBindsRoot` | crates/lean-aggregate/src/lib.rs:82-142 | unless hashing collides, a blob of fewer than 65536 leaves is not accepted for leaves whose object root differs in the first word modulo P |
| `AggregateBlob.BindingIsPossible` | crates/lean-aggregate/src/lib.rs:82-142 | for any two lists of leaves a hash, all of whose digests have 32 bytes, meets that hypothesis |
| `AggregateLoops.SumEvaluations` | crates/lean-aggregate/src/fri.rs:41-58 | the nested loops compute the composed evaluations |
| `AggregateLoops.SumCoefficients` | crates/lean-aggregate/src/fri.rs:265-274 | the nested loops compute the composed coefficients |
| `AggregateLoops.ComposeSameStatement` | crates/lean-aggregate/src/lib.rs:82-119 | the whole of composition: too few leaves, mixed statements, or the blob |
| `AggregateLoops.CheckAggregate` | crates/lean-aggregate/src/lib.rs:122-142 | the whole of checking, with each error |
| `RefCounts.IncrementPeriodGood` | app/upgrades/v520/patch.go:82-86 | ending a period keeps the reference-count invariant and never panics; the new record has one reference |
| `RefCounts.LeaveGood` | app/upgrades/v520/patch.go:342-356 | dropping a starting info with its reference keeps the invariant; the count is never zero |
| `RefCounts.JoinGood` | app/upgrades/v520/patch.go:423-482 | starting at the period just ended raises its count from one to two and keeps the invariant |
| `Rewards.AfterSlashesGood` | app/upgrades/v520/patch.go:219-233 | the slash iteration never panics, only lowers the stake, and pays no more than the starting stake would earn |
| `Rewards.CalculateOutcome` | app/upgrades/v520/patch.go:190-259 | from a good ledger the calculation panics if and only if the slashed stake exceeds the current one by more than the margin, and patches if and only if it exceeds it |
| `Rewards.RewardBound` | app/upgrades/v520/patch.go:214-258 | the segmented, slashed and clamped rewards never exceed starting stake times the whole ratio difference, truncated once |
| `Rewards.ClampCost` | app/upgrades/v520/patch.go:235-258 | the clamp never raises the last segment and lowers it by at most the truncated reward on the margin plus one unit |
| `Rewards.MarginIs` | app/upgrades/v520/patch.go:238-239 | the margin is 9.5 percent of the current stake, rounded to the nearest 18 digits and from a tie to even |
| `RewardAmounts.TrailExists` | app/upgrades/v520/patch.go:216-233 | every delegation of a good ledger has a trail: the events in its height window whose period is above its starting period and above all earlier ones, with the periods and the truncated stakes they lead through; the iteration ends with its last stake |
| `RewardAmounts.TrailUnique` | app/upgrades/v520/patch.go:216-233 | there is only one such trail |
| `RewardAmounts.AmountExactly` | app/upgrades/v520/patch.go:190-259 | the exact reward of every denomination: the sum over the stretches of the trail of stake times ratio difference, truncated, the last one up to the ending period and with at most the current stake |
| `Rewards.StaysUnpatched` | app/upgrades/v520/patch.go:209-247 | a delegation recorded with at most its current stake is never patched, whatever slash events lie between |
| `Rewards.ReinitialisedNotPatched` | app/upgrades/v520/patch.go:209-247 | a re-initialised delegation is not patched again at any height while shares and tokens stay the same |
| `Dec.TruncatedBelowRounded` | app/upgrades/v520/patch.go:235 | truncated tokens-from-shares are at most the rounded ones |
| `PatchRuns.SettleGood` | app/upgrades/v520/patch.go:285-356 | a settlement can only fail in the bank, and keeps the ledger invariant |
| `PatchRuns.InitializeGood` | app/upgrades/v520/patch.go:452-482 | re-initialising after a period end cannot fail |
| `PatchRuns.PatchOneGood` | app/upgrades/v520/patch.go:55-115 | every iteration succeeds, fails in the bank or panics on the margin, and keeps the invariant unless it panics |
| `PatchRuns.RunGood` | app/upgrades/v520/patch.go:44-115 | over every run only success, a bank error or the margin panic is reachable, and refcount(p) == starting infos + slash events + [p == current - 1] holds afterwards |
| `PatchConservation.SettleConservesIn` | app/upgrades/v520/patch.go:285-341 | a settlement takes from outstanding exactly what it pays out and adds to the pool |
| `PatchConservation.RunConserves` | app/upgrades/v520/patch.go:44-115 | over every run, module balance - outstanding - community pool and the total supply are unchanged in each denomination |
| `PatchConservation.SolventPays` | app/upgrades/v520/patch.go:304-325 | in a solvent module a payment of outstanding rewards is refused if and only if there is something to pay and the payee is blocked |
| `PatchConservation.RunPays` | app/upgrades/v520/patch.go:44-115 | from a good and solvent state without blocked payees no run returns an error |
| `PatchPayments.SendExactly` | app/upgrades/v520/patch.go:306-325 | a payment raises the balance of the withdraw address, or else of the delegator, by exactly the coins, lowers the module account by them, and leaves every other balance |
| `PatchPayments.SettleExactly` | app/upgrades/v520/patch.go:285-341 | the payee gets the whole coins of the reward, the community pool the fraction, and both leave the outstanding rewards |
| `PatchPayments.RoundedStake` | app/upgrades/v520/patch.go:235 | the rounded stake is within half a unit and 10^-18 of shares times tokens over validator shares |
| `PatchPayments.InitializeExactly` | app/upgrades/v520/patch.go:452-482 | a restart records the period just ended, the height, and the largest decimal k with k times validator shares at most shares times tokens, within one unit of the rounded stake |
| `PatchPayments.CountPanics` | app/upgrades/v520/patch.go:423-449 | a restart panics on the count if and only if the last record has three references, a settlement if and only if the starting record has none |
| `PatchPayments.PatchOnePaysExactly` | app/upgrades/v520/patch.go:55-115 | from the state before it: a patched delegation is paid exactly the earnings along its trail up to the ratio the current rewards add, at most what is outstanding, to its withdraw address, and starts again with the truncated stake |
| `PatchIdempotence.RunCalms` | app/upgrades/v520/patch.go:44-115 | after a successful run no delegation of a visited validator would be patched |
| `PatchIdempotence.SecondRunPatchesNothing` | app/upgrades/v520/patch.go:44-115 | a second run at the same height patches nothing and moves no money |
| `PatchOutcome.PatchOneExact` | app/upgrades/v520/patch.go:55-115 | from a good and solvent state an iteration for an unblocked payee panics if and only if the stake is beyond the margin, and patches if and only if it exceeds the current stake |
| `PatchOutcome.RunExactly` | app/upgrades/v520/patch.go:44-115 | the result of a whole run from the state before it: a panic if and only if some visited delegation is beyond the margin, otherwise success with the number of delegations whose stake exceeds the current one |
| `PatchOutcome.UnknownDelegationPanics` | app/upgrades/v520/patch.go:190-215 | a delegation with shares but without starting info panics at every positive height |
| `PatchOutcome.ExampleOutcomes` | app/upgrades/v520/patch.go:44-115 | a good and solvent state for every recorded stake: up to 100 tokens nothing moves, up to 109 the delegation is patched and receives exactly 100 coins, and from 110 on the run panics |
| `Keepers.AppKeepers.IncrementReferenceCount` | app/upgrades/v520/patch.go:423-435 | the new ledger, or the panic above two |
| `Keepers.AppKeepers.DecrementReferenceCount` | app/upgrades/v520/patch.go:438-449 | the new ledger with empty records deleted, or the panic at zero |
| `Keepers.AppKeepers.CalculateDelegationRewards` | app/upgrades/v520/patch.go:190-259 | the iterator loop computes the modelled rewards and patch flag |
| `Keepers.AppKeepers.IncrementValidatorPeriod` | app/upgrades/v520/patch.go:82-86 | the stores after the period is ended |
| `Keepers.AppKeepers.SendCoinsFromModule` | app/upgrades/v520/patch.go:306-325 | the balances after a payment, or the bank's refusal |
| `Keepers.AppKeepers.SettleRewards` | app/upgrades/v520/patch.go:304-356 | the stores after payment, pool and reference updates |
| `Keepers.AppKeepers.WithdrawDelegationRewards` | app/upgrades/v520/patch.go:261-378 | the stores after a withdrawal, with every error and panic |
| `Keepers.AppKeepers.InitializeDelegation` | app/upgrades/v520/patch.go:452-482 | the stores after a restart |
| `Keepers.AppKeepers.PatchDelegation` | app/upgrades/v520/patch.go:55-115 | one iteration refines its function |
| `Keepers.AppKeepers.PatchAll` | app/upgrades/v520/patch.go:44-115 | the nested loops refine the function the run theorems are about |
| `Varint.UvarintExact` | cmd/ipfs/cid.go:31-50 | uvarint succeeds if and only if the input starts with the minimal encoding of a 64-bit value, and returns that value and its length |
| `Varint.FromUvarintExact` | cmd/ipfs/cid.go:666-678 | the multiformats decoder does the same for values below 2^63 |
| `Varint.LengthLimits` | cmd/ipfs/cid.go:38-40 | nine bytes hold exactly the values below 2^63, ten bytes with a last digit of at most one those below 2^64 |
| `Varint.AppendUvarint` | cmd/ipfs/add.go:73-79 | the append loop writes the minimal encoding |
| `Varint.DecodeUvarint` | cmd/ipfs/cid.go:31-50 | the decoding loop over a 64-bit accumulator computes the modelled decoder |
| `UnixFs.ReadAllWritten` | cmd/ipfs/add.go:62-71 | parsing any written list of fields returns it, with nothing left over |
| `UnixFs.AppendVarintField` | cmd/ipfs/add.go:62-65 | appends one varint field |
| `UnixFs.AppendBytesField` | cmd/ipfs/add.go:67-71 | appends one length-delimited field |
| `UnixFs.EncodeUnixFsFileBlock` | cmd/ipfs/add.go:46-60 | a wire-format parse of the block gives one outer Data field with Type 2, the content and its length, and no bytes left over |
| `UnixFs.BlockOfA` | cmd/ipfs/add.go:46-79 | the nine bytes of the block for the file that holds the letter a |
| `UnixFs.DescribesOne` | cmd/ipfs/add.go:46-60 | such a block determines its content, so the encoder is injective |
| `Cid.ReadMultihashExact` | cmd/ipfs/cid.go:680-687 | reading a multihash succeeds if and only if the input starts with the encoding of one, and returns its parts |
| `Cid.V1Parses` | cmd/ipfs/cid.go:156-176 | parsing a constructed version 1 CID followed by anything returns exactly it, if and only if the codec is below 2^63 |
| `Cid.V1Accessors` | cmd/ipfs/cid.go:333-348 | Version, Type and Prefix read back what was constructed; Hash does if and only if the codec is below 2^63 |
| `Cid.WideCodecExample` | cmd/ipfs/cid.go:156-176 | codec 2^63 over an empty identity multihash: constructed, not parsed back, and Hash differs |
| `Cid.HashReads` | cmd/ipfs/cid.go:400-413 | Hash returns the multihash if and only if the codec is below 2^63 |
| `Cid.V0Exact` | cmd/ipfs/cid.go:125-136 | a version 0 CID exists exactly for 34 bytes starting 18, 32; it parses back with any suffix and its accessors agree |
| `Cid.VersionsDisjoint` | cmd/ipfs/cid.go:333-338 | constructed CIDs of the two versions are never equal |
| `Cid.ParseSound` | cmd/ipfs/cid.go:652-688 | whatever the parser accepts is a prefix of the input, has the version of the branch taken, and is rebuilt from its accessors |
| `Cid.ParseStable` | cmd/ipfs/cid.go:297-308 | a parsed CID parses again with any suffix, and Cast accepts its bytes |
| `Cid.CastExactly` | cmd/ipfs/cid.go:297-308 | Cast succeeds if and only if the bytes parse to a CID that takes all of them |
| `CidReader.ByteStream.ReadByte` | cmd/ipfs/cid.go:708-725 | one byte, end of input or an error |
| `CidReader.ByteStream.ReadFull` | cmd/ipfs/cid.go:758-760 | fills the range or reports how far it came |
| `CidReader.BufByteReader.Grow` | cmd/ipfs/cid.go:804-815 | a larger buffer with the same contents |
| `CidReader.BufByteReader.ReadByte` | cmd/ipfs/cid.go:706-726 | reads one byte and keeps it in the buffer |
| `CidReader.BufByteReader.ReadUvarint` | cmd/ipfs/cid.go:746-754 | agrees with the slice decoder and reads no byte beyond the varint |
| `CidReader.CidFromReader` | cmd/ipfs/cid.go:738-832 | success if and only if the slice parser succeeds and the digest is at most 32 MiB, with the same length and CID; the count is the number of bytes consumed even on error; end of input only for an empty stream |
| `CidReader.LongDigestRefused` | cmd/ipfs/cid.go:804-832 | a CID with a digest of 32 MiB and one byte that the slice parser accepts and the reader refuses |
| `CidReader.ReadV0` | cmd/ipfs/cid.go:756-769 | the version 0 branch |
| `CidReader.ReadV1` | cmd/ipfs/cid.go:771-832 | the version 1 branch |
| `CidReader.ReadDigest` | cmd/ipfs/cid.go:804-832 | the digest read and the final check |
| `CidReader.SliceAfterHeader` | cmd/ipfs/cid.go:652-688 | after a complete header the slice parser succeeds if and only if the digest is present |
| `CidReader.DigestAccepted` | cmd/ipfs/cid.go:823-829 | the reader's final validity check always passes |
| `Balances.CreditsConserved` | cmd/terpd/cmd/export.go:128-165 | credits summed over all accounts equal the total credited |
| `Balances.CreditsOwn` | cmd/terpd/cmd/export.go:128-165 | an address is credited with exactly the amounts of its own entries |
| `Balances.LastEntryWins` | cmd/terpd/cmd/export.go:113-122 | the last bank entry of an address is its liquid balance, and an address without one has none |
| `Balances.LastValidatorCounts` | cmd/terpd/cmd/export.go:146-149 | the last validator of an operator is indexed, and only listed operators are |
| `Balances.LiquidConserved` | cmd/terpd/cmd/export.go:113-122 | liquid balances plus overwritten entries equal the bank's total |
| `Balances.OverwrittenExactly` | cmd/terpd/cmd/export.go:113-122 | some of a denomination is lost if and only if an entry that holds it is followed by another of its address |
| `Balances.RepeatedAddressLoses` | cmd/terpd/cmd/export.go:113-122 | two entries of an address after which the coin of the first is gone |
| `Balances.StakedTokensBound` | cmd/terpd/cmd/export.go:160-161 | one rounded stake is within 1/2 + 10^-18 of the exact share |
| `Dec.RoundsHalfToEven` | cmd/terpd/cmd/export.go:161 | rounding goes to the nearest integer, and from a tie to the even one, for every decimal |
| `Balances.StakedExactly` | cmd/terpd/cmd/export.go:160-161 | a stake is rounded to 18 digits and then to an integer, both times half to even |
| `Balances.TieGoesToEven` | cmd/terpd/cmd/export.go:160-161 | half of five tokens is a stake of two |
| `BalanceRounding.ContributionIs` | cmd/terpd/cmd/export.go:151-165 | the credits that come from a validator are the sum of the rounded stakes of the delegations to it |
| `BalanceRounding.ValidatorOfGenesis` | cmd/terpd/cmd/export.go:151-165 | when the n delegations of a genesis to a validator sum to its shares, its credits are within n * (1/2 + 10^-18) of its tokens |
| `BalanceRounding.SnapshotRounding` | cmd/terpd/cmd/export.go:113-177 | when this holds of every indexed validator, the stakes of the derived snapshot sum to the tokens of all validators within n * (1/2 + 10^-18), n the number of delegations |
| `Balances.LoadBalances` | cmd/terpd/cmd/export.go:113-122 | the last bank entry of an address is its liquid balance |
| `Balances.AddUnbondings` | cmd/terpd/cmd/export.go:128-143 | every account gains exactly its unbonding entries |
| `Balances.IndexValidators` | cmd/terpd/cmd/export.go:146-149 | the last validator of an address is indexed |
| `Balances.AddStakes` | cmd/terpd/cmd/export.go:151-165 | every account gains exactly its rounded stakes; panics if and only if some validator is unknown or has no shares |
| `Balances.AddTotals` | cmd/terpd/cmd/export.go:168-177 | totals of liquid, staked and unbonding, in any order; panics if and only if an amount is negative |
| `Balances.DeriveBalances` | cmd/terpd/cmd/export.go:113-177 | one account per holder with exactly what it is due, and the exact panic condition |
| `Balances.DerivedConserves` | cmd/terpd/cmd/export.go:113-177 | unbonding stakes sum to all entries, stakes to all rounded delegations, liquid to all bank entries not overwritten |
| `Balances.TotalsConserve` | cmd/terpd/cmd/export.go:168-177 | the totals sum to liquid plus staked plus unbonding |
| `Balances.UniqueTotals` | cmd/terpd/cmd/export.go:113-177 | with unique bank addresses the totals sum to the bank's total plus staked plus unbonding |
| `Rotator.SkipEngine` | server/commonware.go:34-53 | the engine is skipped unless the key is known, has 32 bytes and fills an aligned slot of the participants |
| `Rotator.LaterBoundary` | x/leanval/types/keys.go:180-185 | a later height opens no earlier period, and a boundary opens a later period than any boundary before it |
| `Rotator.PeriodCounts` | x/leanval/types/keys.go:180-185 | the period p of a height h with n blocks per period satisfies p * n <= h < (p + 1) * n |
| `Rotator.CommitExactly` | server/commonware.go:149-159 | a commit at h appends (h + 1) / n to a channel with fewer than four epochs if and only if n divides h + 1, and otherwise changes nothing |
| `Rotator.CommitStep` | server/commonware.go:149-159 | the same of every commit of the state machine, which changes nothing else but the height |
| `Rotator.QueueKept` | server/commonware.go:149-159 | every step keeps the channel ascending, at most four long and newer than what was taken |
| `Rotator.HistoryKept` | server/commonware.go:192-268 | every step keeps the started epochs increasing and the recorded epoch the last of them |
| `Rotator.EngineKept` | server/commonware.go:192-268 | every step keeps a running engine at the recorded epoch with the local key |
| `Rotator.Safety` | server/commonware.go:149-268 | in every interleaving: started epochs strictly increase, the channel is ascending and at most four long, a running engine has the recorded epoch and participants with the local key |
| `Rotator.RotationsAreNews` | server/commonware.go:254-260 | an epoch from the channel is always above the recorded one |
| `Rotator.HistoryGrows` | server/commonware.go:192-252 | successful starts are never forgotten along a run |
| `Rotator.GivesUp` | server/commonware.go:192-252 | a start gives up when its storage or its fifteenth attempt fails; at epoch 0 that ends the process, later only the rotation |
| `Rotator.HaltedForever` | server/commonware.go:160-190 | after the end of the process no epoch is started or recorded |
| `Rotator.DroppedIsMissed` | server/commonware.go:152-158 | a boundary commit leaves its period missed if and only if it finds the channel full |
| `Rotator.DroppedNeverStarts` | server/commonware.go:152-158 | a period dropped at a full channel is never started in any later state |
| `Rotator.SixthPeriodLost` | server/commonware.go:152-158 | a run of five commits with one block per period that drops period 6 |
| `Commonware.CwEngine.OnCommit` | server/commonware.go:149-159 | the channel after the callback: (h + 1) / n appended if and only if n divides h + 1 and fewer than four epochs wait |
| `Commonware.CwEngine.StartEpoch` | server/commonware.go:192-252 | succeeds if and only if the key takes part, storage is there and one of 15 attempts succeeds; otherwise the engine is stopped and the epoch unchanged |
| `Commonware.CwEngine.Rotate` | server/commonware.go:254-268 | the engine and epoch after a rotation, and when it reports an error |
| `Commonware.RotationIsPath` | server/commonware.go:176-268 | a rotation is a path of the state machine, so the safety theorem covers it |
| `Faucet.RateLimiter.Allow` | app/testutils/faucet.go:117-125 | refuses exactly while a younger entry exists, and records the admission otherwise |
| `Faucet.RateLimiter.Serve` | app/testutils/faucet.go:144-197 | the status and the entries after one undisturbed request |
| `Faucet.StepKeeps` | app/testutils/faucet.go:117-190 | every step that is not an overlapping arrival keeps the limiter invariant |
| `Faucet.Safety` | app/testutils/faucet.go:117-190 | in every interleaving without overlapping arrivals: one request per address in flight, each owning its entry, and payouts to an address at least a window apart |
| `Faucet.RollbackIsOwn` | app/testutils/faucet.go:182-190 | in such an interleaving a failed send removes the entry of its own admission and disturbs no other |
| `Faucet.TimelySafety` | app/testutils/faucet.go:117-190 | the same promises when every send finishes within the window |
| `Faucet.LateButClear` | app/testutils/faucet.go:117-190 | a lone late send overlaps nothing, so timeliness is not necessary |
| `Faucet.ClearExactly` | app/testutils/faucet.go:117-125 | from a good state an arrival keeps one request per address, and the invariant, if and only if it overlaps none |
| `Faucet.OneExactly` | app/testutils/faucet.go:117-190 | over every interleaving: at most one request per address at all times if and only if no arrival overlaps |
| `Faucet.OverlapBreaksSpacing` | app/testutils/faucet.go:117-190 | from every good state every overlapping arrival has a continuation after which two payouts are not spaced |
| `Faucet.SlowSendBreaksSpacing` | app/testutils/faucet.go:175-190 | for every window, an interleaving with a slow send in which two payouts are not spaced |

## Left out

- Hashing and encodings of SHA-256, base58 and multibase text and JSON: hashes are parameters, only binary forms are modelled.
- Wire encoding of aggregate blobs (`encode_blob`, `decode_blob`) and the rejection of dummy batches: they lay fields out behind one-byte counts and prefixes, apart from composing and checking.
- Low-degree soundness of the FRI argument: what arbitrary provers can have accepted is stated exactly, and no degree bound follows from it, because folds between layers are not compared.
- The shift-and-or loop of `pack4`: the four shifted bytes do not overlap, so the model adds them; bitwise or and exclusive or are defined bit by bit on numbers.
- The ghost slash event for one named validator at the end of the patch, and its JSON report, logging and events.
- Bit-length limits of decimals and big integers, and address codecs: amounts are unbounded and addresses are values.
- IncrementValidatorPeriod of the Cosmos SDK and the bank's send are modelled by their contracts; send restrictions are a set of blocked accounts, and a missing historical record reads as the zero record.
- The go-multihash and go-varint libraries are modelled by the multihash and unsigned-varint specifications.
- CID text forms, JSON, `Prefix.Bytes`, `PrefixFromBytes`, and the hashing and size limit of `AddBytes`.
- Bank coins of the balance export are maps from denomination to amount; the source adds sorted lists and also panics when a genesis list is unsorted.
- File and CSV input and output of the balance export, and its lookups outside the accumulation loops.
- Storage, networking and catch-up around the consensus engine: starting, stopping and dying are nondeterministic steps, heights are unbounded integers, and weights and floor certificates are not modelled.
- Commonware.CwEngine.StartEpoch: takes the outcomes of the start attempts as a parameter, because the engine itself is outside the model.
- Building, signing and broadcasting the faucet's transaction: a send succeeds or fails; the conversion of the cooldown to a duration is not modelled.
- UnixFs.EncodeUnixFsFileBlock: asks for a message below 2^63 bytes, which every Go slice satisfies.
- Modules, wiring, process startup, other commands and the remaining packages of the repository.
